/** The string helpers of the tool: whitespace removal, per-line prefixes,
    the middle cut used for long messages, the variable-to-letter renaming
    fed to the constraint parser, and the kebab-case / CamelCase conversion
    used to name plugins.
 */
module Strings {
  import opened Results
  import opened Text

  /* ---------------------------------------------------------------- clean */

  /** `clean`: the text with every whitespace character removed. */
  function Clean(text: string): (r: string)
    ensures forall c :: c in r ==> !IsSpace(c)
    ensures |r| <= |text|
  {
    if text == [] then []
    else if IsSpace(text[0]) then Clean(text[1..]) else [text[0]] + Clean(text[1..])
  }

  /** Cleaning distributes over concatenation, so the kept characters stay
      in their original order. */
  lemma {:induction false} CleanConcat(a: string, b: string)
    ensures Clean(a + b) == Clean(a) + Clean(b)
    decreases |a|
  {
    if a == [] {
      assert a + b == b;
    } else {
      var ab := a + b;
      assert ab[0] == a[0];
      assert ab[1..] == a[1..] + b;
      CleanConcat(a[1..], b);
      if IsSpace(a[0]) {
        assert Clean(ab) == Clean(a[1..] + b);
        assert Clean(a) == Clean(a[1..]);
      } else {
        assert Clean(ab) == [a[0]] + (Clean(a[1..]) + Clean(b));
        assert Clean(a) == [a[0]] + Clean(a[1..]);
      }
    }
  }

  /** One character: kept exactly when it is not whitespace. With
      `CleanConcat` this pins `Clean` down on every text. */
  lemma CleanChar(c: char)
    ensures Clean([c]) == if IsSpace(c) then [] else [c]
  {
    assert [c][1..] == [];
  }

  /** A text without whitespace is left alone. */
  lemma {:induction false} CleanKeepsSpaceless(text: string)
    requires forall c :: c in text ==> !IsSpace(c)
    ensures Clean(text) == text
    decreases |text|
  {
    if text != [] {
      CleanKeepsSpaceless(text[1..]);
    }
  }

  lemma CleanIdempotent(text: string)
    ensures Clean(Clean(text)) == Clean(text)
  {
    CleanKeepsSpaceless(Clean(text));
  }

  /* --------------------------------------------------- add_prefix_each_line */

  function PrefixAll(lines: seq<string>, prefix: string): (r: seq<string>)
    ensures |r| == |lines|
    ensures forall k :: 0 <= k < |lines| ==> r[k] == prefix + lines[k]
  {
    seq(|lines|, k requires 0 <= k < |lines| => prefix + lines[k])
  }

  /** `add_prefix_each_line`: split on newlines, prefix each line, join. */
  function AddPrefixEachLine(text: string, prefix: string): string {
    JoinWith(PrefixAll(SplitOn(text, "\n"), prefix), "\n")
  }

  /** No piece of a split on one character contains that character. */
  lemma {:induction false} SplitPiecesFree(s: string, c: char)
    ensures forall k :: 0 <= k < |SplitOn(s, [c])| ==> c !in SplitOn(s, [c])[k]
    decreases |s|
  {
    var fi := FirstIndex(s, [c]);
    if fi.None? {
      if c in s {
        var i :| 0 <= i < |s| && s[i] == c;
        assert s[i..i + 1] == [c];
        assert OccursAt(s, [c], i);
      }
    } else {
      var i := fi.value;
      SplitOnStep(s, [c], i);
      SplitPiecesFree(s[i + 1..], c);
      forall j | 0 <= j < i ensures s[j] != c {
        assert !OccursAt(s, [c], j);
        assert s[j..j + 1] == [s[j]];
      }
    }
  }

  /** Prefixing keeps the line count, and line k of the result is the prefix
      followed by line k of the input. */
  lemma AddPrefixLines(text: string, prefix: string)
    requires '\n' !in prefix
    ensures |SplitOn(AddPrefixEachLine(text, prefix), "\n")| == |SplitOn(text, "\n")|
    ensures forall k :: 0 <= k < |SplitOn(text, "\n")| ==>
      SplitOn(AddPrefixEachLine(text, prefix), "\n")[k] == prefix + SplitOn(text, "\n")[k]
  {
    var lines := SplitOn(text, "\n");
    SplitPiecesFree(text, '\n');
    var out := PrefixAll(lines, prefix);
    forall k | 0 <= k < |out| ensures '\n' !in out[k] {
      assert out[k] == prefix + lines[k];
    }
    SplitJoin(out, '\n');
  }

  /* ------------------------------------------------------------ cut_between */

  /** `cut_between`: a text longer than `start + end` keeps its first
      `start` characters, then " ... ", then `text[-end:]`. Python reads
      `text[-0:]` as the whole text, so `end == 0` appends all of it. */
  function CutBetween(text: string, start: nat, end: nat): (r: string)
    ensures |text| <= start + end ==> r == text
    ensures |text| > start + end ==>
      |r| >= start + 5 && r[..start] == text[..start] && r[start..start + 5] == " ... "
    ensures |text| > start + end && end > 0 ==>
      |r| == start + 5 + end && r[start + 5..] == text[|text| - end..]
    ensures |text| > start + end && end == 0 ==> |r| >= start + 5 && r[start + 5..] == text
  {
    if |text| <= start + end then text
    else
      var tail := if end == 0 then text else text[|text| - end..];
      text[..start] + " ... " + tail
  }

  /** With `end == 0` the "cut" text is longer than the text it shortens. */
  lemma CutBetweenZeroEndGrows(text: string, start: nat)
    requires |text| > start
    ensures |CutBetween(text, start, 0)| == start + 5 + |text| > |text|
  {
  }

  /* ------------------------------------------------- variable <-> harmonic */

  /** The letters handed out to program variables, in order. */
  const Alphabet: string := "xyzwklmnopqrstuvabcdfgh"

  lemma AlphabetDistinct()
    ensures |Alphabet| == 23
    ensures forall i, j :: 0 <= i < j < |Alphabet| ==> Alphabet[i] != Alphabet[j]
  {
  }

  /** A letter of the alphabet determines its position. */
  lemma AlphabetPosition(i: nat, k: nat)
    requires i < |Alphabet| && k < |Alphabet| && Alphabet[i] == Alphabet[k]
    ensures i == k
  {
    AlphabetDistinct();
  }

  predicate Distinct<T(==)>(s: seq<T>) {
    forall i, j :: 0 <= i < j < |s| ==> s[i] != s[j]
  }

  /** The global mapping: the variables seen so far, in first-seen order;
      variable k is mapped to the letter `Alphabet[k]`. */
  predicate ValidMapping(m: seq<string>) {
    |m| <= |Alphabet| && Distinct(m)
  }

  function IndexOf<T(==)>(s: seq<T>, x: T): (r: Option<nat>)
    ensures r.Some? ==> r.value < |s| && s[r.value] == x && forall j :: 0 <= j < r.value ==> s[j] != x
    ensures r.None? ==> x !in s
  {
    if s == [] then None
    else if s[0] == x then Some(0)
    else
      var rest := IndexOf(s[1..], x);
      if rest.None? then None else Some(rest.value + 1)
  }

  /** `from_variable_to_harmonic`: the letter of `v` and the mapping after
      the call (a new variable takes the next free letter; once all letters
      are taken a new variable raises). */
  function ToHarmonic(m: seq<string>, v: string): (r: Result<(string, seq<string>)>)
    requires ValidMapping(m)
    ensures v in m ==> r.Ok? && r.value.1 == m && |r.value.0| == 1
    ensures v !in m && |m| >= |Alphabet| ==> r.Err?
    ensures v !in m && |m| < |Alphabet| ==> r == Ok(([Alphabet[|m|]], m + [v]))
    ensures r.Ok? ==> ValidMapping(r.value.1) && v in r.value.1
  {
    match IndexOf(m, v)
    case Some(k) => Ok(([Alphabet[k]], m))
    case None =>
      if |m| >= |Alphabet| then Err("Too many variables to map: " + v)
      else Ok(([Alphabet[|m|]], m + [v]))
  }

  /** `from_harmonic_to_variable`: the variable whose letter is `h`,
      found by walking the mapping in insertion order. */
  function FromHarmonic(m: seq<string>, h: string): (r: Result<string>)
    requires |m| <= |Alphabet|
    ensures r.Ok? ==> exists k :: 0 <= k < |m| && [Alphabet[k]] == h && r.value == m[k]
    ensures r.Err? <==> forall k :: 0 <= k < |m| ==> [Alphabet[k]] != h
  {
    LookupFrom(m, h, 0)
  }

  function LookupFrom(m: seq<string>, h: string, k: nat): (r: Result<string>)
    requires k <= |m| <= |Alphabet|
    ensures r.Ok? ==> exists j :: k <= j < |m| && [Alphabet[j]] == h && r.value == m[j]
    ensures r.Err? <==> forall j :: k <= j < |m| ==> [Alphabet[j]] != h
    decreases |m| - k
  {
    if k == |m| then Err("Unknown harmonic: " + h)
    else if [Alphabet[k]] == h then Ok(m[k])
    else LookupFrom(m, h, k + 1)
  }

  /** The letter handed out is the one at the variable's position in the
      mapping after the call. */
  lemma LetterIsPosition(m: seq<string>, v: string)
    requires ValidMapping(m)
    requires ToHarmonic(m, v).Ok?
    ensures IndexOf(ToHarmonic(m, v).value.1, v).Some?
    ensures ToHarmonic(m, v).value.0 == [Alphabet[IndexOf(ToHarmonic(m, v).value.1, v).value]]
    ensures ToHarmonic(m, v).value.1[..|m|] == m
  {
    var m' := ToHarmonic(m, v).value.1;
    if v !in m {
      assert m' == m + [v];
      assert forall j :: 0 <= j < |m| ==> m'[j] != v;
      assert IndexOf(m', v).value == |m|;
    }
  }

  /** Every call gives the same letter to the same variable. */
  lemma {:induction false} HarmonicStable(m: seq<string>, v: string)
    requires ValidMapping(m)
    requires ToHarmonic(m, v).Ok?
    ensures ToHarmonic(ToHarmonic(m, v).value.1, v) == Ok((ToHarmonic(m, v).value.0, ToHarmonic(m, v).value.1))
  {
    var m' := ToHarmonic(m, v).value.1;
    if v !in m {
      assert m' == m + [v];
      assert forall j :: 0 <= j < |m| ==> m'[j] != v;
      assert IndexOf(m', v).value == |m|;
    }
  }

  /** Distinct variables get distinct letters. */
  lemma HarmonicInjective(m: seq<string>, v: string, w: string)
    requires ValidMapping(m)
    requires v != w
    requires ToHarmonic(m, v).Ok?
    requires ToHarmonic(ToHarmonic(m, v).value.1, w).Ok?
    ensures ToHarmonic(ToHarmonic(m, v).value.1, w).value.0 != ToHarmonic(m, v).value.0
  {
    AlphabetDistinct();
    var m1 := ToHarmonic(m, v).value.1;
    LetterIsPosition(m, v);
    var i := IndexOf(m1, v).value;
    LetterIsPosition(m1, w);
    var m2 := ToHarmonic(m1, w).value.1;
    var k := IndexOf(m2, w).value;
    assert m2[..|m1|] == m1;
    assert m2[i] == v;
    assert i != k;
  }

  /** The letter handed out for `v` leads back to `v`. */
  lemma {:induction false} HarmonicRoundTrip(m: seq<string>, v: string)
    requires ValidMapping(m)
    requires ToHarmonic(m, v).Ok?
    ensures FromHarmonic(ToHarmonic(m, v).value.1, ToHarmonic(m, v).value.0) == Ok(v)
  {
    var h := ToHarmonic(m, v).value.0;
    var m' := ToHarmonic(m, v).value.1;
    LetterIsPosition(m, v);
    var i := IndexOf(m', v).value;
    var r := FromHarmonic(m', h);
    assert [Alphabet[i]] == h;
    assert !r.Err?;
    var k :| 0 <= k < |m'| && [Alphabet[k]] == h && r.value == m'[k];
    assert Alphabet[k] == h[0] == Alphabet[i];
    AlphabetPosition(i, k);
  }

  /* ---------------------------------------- kebab-case <-> CamelCase names */

  /** `str.capitalize` on ASCII: first letter upper case, the rest lower case. */
  function Capitalize(w: string): string {
    if w == [] then [] else [ToUpper(w[0])] + LowerAll(w[1..])
  }

  function ConcatAll(ws: seq<string>): string {
    if ws == [] then [] else ws[0] + ConcatAll(ws[1..])
  }

  function CapitalizeAll(ws: seq<string>): (r: seq<string>)
    ensures |r| == |ws| && forall k :: 0 <= k < |ws| ==> r[k] == Capitalize(ws[k])
  {
    seq(|ws|, k requires 0 <= k < |ws| => Capitalize(ws[k]))
  }

  function LowerEach(ws: seq<string>): (r: seq<string>)
    ensures |r| == |ws| && forall k :: 0 <= k < |ws| ==> r[k] == LowerAll(ws[k])
  {
    seq(|ws|, k requires 0 <= k < |ws| => LowerAll(ws[k]))
  }

  /** `from_dash_to_uppercase`: "changes-fast" becomes "ChangesFast". */
  function DashToUpper(name: string): string {
    ConcatAll(CapitalizeAll(SplitOn(name, "-")))
  }

  /** The length of the longest prefix without an upper-case letter. */
  function NonUpperRun(s: string): (n: nat)
    ensures n <= |s|
    ensures forall i :: 0 <= i < n ==> !IsUpper(s[i])
    ensures n < |s| ==> IsUpper(s[n])
  {
    if s == [] || IsUpper(s[0]) then 0 else 1 + NonUpperRun(s[1..])
  }

  lemma {:induction false} NonUpperRunIs(t: string, n: nat)
    requires n <= |t|
    requires forall i :: 0 <= i < n ==> !IsUpper(t[i])
    requires n == |t| || IsUpper(t[n])
    ensures NonUpperRun(t) == n
    decreases n
  {
    if n > 0 {
      NonUpperRunIs(t[1..], n - 1);
    }
  }

  /** `re.findall('[A-Z][^A-Z]*', s)`: each upper-case letter with the
      non-upper-case run after it; text before the first capital is skipped. */
  function Words(s: string): seq<string>
    decreases |s|
  {
    if s == [] then []
    else if !IsUpper(s[0]) then Words(s[1..])
    else
      var n := NonUpperRun(s[1..]);
      [s[..1 + n]] + Words(s[1 + n..])
  }

  /** `from_uppercase_to_dash`: "ChangesFast" becomes "changes-fast". */
  function UpperToDash(name: string): string {
    JoinWith(LowerEach(Words(name)), "-")
  }

  /** A non-empty word of lower-case ASCII letters. */
  predicate LowerWord(w: string) {
    |w| > 0 && forall i :: 0 <= i < |w| ==> IsLower(w[i])
  }

  lemma {:induction false} LowerAllOfLower(w: string)
    requires forall i :: 0 <= i < |w| ==> IsLower(w[i])
    ensures LowerAll(w) == w
  {
  }

  /** A capitalised lower-case word followed by text that starts with a
      capital (or nothing) is exactly the first word the pattern finds. */
  lemma CapitalizedStart(w: string, rest: string)
    requires LowerWord(w)
    requires rest == [] || IsUpper(rest[0])
    ensures var s := Capitalize(w) + rest;
      s != [] && IsUpper(s[0]) && NonUpperRun(s[1..]) == |w| - 1
      && s[..|w|] == Capitalize(w) && s[|w|..] == rest
  {
    LowerAllOfLower(w[1..]);
    var cw := Capitalize(w);
    assert cw == [ToUpper(w[0])] + w[1..];
    var s := cw + rest;
    var n := |w| - 1;
    assert forall i :: 0 <= i < n ==> s[1..][i] == w[1 + i];
    if n < |s| - 1 {
      assert s[1..][n] == rest[0];
    }
    NonUpperRunIs(s[1..], n);
  }

  lemma CapitalizeAllStep(ws: seq<string>)
    requires ws != []
    ensures ConcatAll(CapitalizeAll(ws)) == Capitalize(ws[0]) + ConcatAll(CapitalizeAll(ws[1..]))
  {
    assert CapitalizeAll(ws)[1..] == CapitalizeAll(ws[1..]);
  }

  /** The capitalised words of a CamelCase name are exactly what the
      regular expression finds in it. */
  lemma {:induction false} WordsOfCapitalized(ws: seq<string>)
    requires forall k :: 0 <= k < |ws| ==> LowerWord(ws[k])
    ensures Words(ConcatAll(CapitalizeAll(ws))) == CapitalizeAll(ws)
    decreases |ws|
  {
    if ws != [] {
      var w := ws[0];
      var rest := ConcatAll(CapitalizeAll(ws[1..]));
      CapitalizeAllStep(ws);
      if ws[1..] != [] {
        CapitalizeAllStep(ws[1..]);
        assert ws[1..][0] == ws[1];
        assert rest == Capitalize(ws[1]) + ConcatAll(CapitalizeAll(ws[2..]));
      }
      CapitalizedStart(w, rest);
      WordsOfCapitalized(ws[1..]);
      assert CapitalizeAll(ws) == [Capitalize(w)] + CapitalizeAll(ws[1..]);
    }
  }

  lemma LowerWordNoDash(w: string)
    requires LowerWord(w)
    ensures '-' !in w
  {
    forall i | 0 <= i < |w| ensures w[i] != '-' {
      assert IsLower(w[i]);
    }
  }

  lemma LowerCapitalized(ws: seq<string>)
    requires forall k :: 0 <= k < |ws| ==> LowerWord(ws[k])
    ensures LowerEach(CapitalizeAll(ws)) == ws
    ensures forall k :: 0 <= k < |ws| ==> '-' !in ws[k]
  {
    var lowered := LowerEach(CapitalizeAll(ws));
    forall k | 0 <= k < |ws| ensures lowered[k] == ws[k] && '-' !in ws[k] {
      LowerWordNoDash(ws[k]);
      LowerAllOfLower(ws[k][1..]);
      assert Capitalize(ws[k]) == [ToUpper(ws[k][0])] + ws[k][1..];
      assert ws[k] == [ws[k][0]] + ws[k][1..];
    }
  }

  /** Kebab-case names made of lower-case words survive the round trip
      through CamelCase. */
  lemma DashUpperRoundTrip(ws: seq<string>)
    requires |ws| >= 1
    requires forall k :: 0 <= k < |ws| ==> LowerWord(ws[k])
    ensures UpperToDash(DashToUpper(JoinWith(ws, "-"))) == JoinWith(ws, "-")
  {
    LowerCapitalized(ws);
    SplitJoin(ws, '-');
    WordsOfCapitalized(ws);
  }

  /** CamelCase names made of capitalised lower-case words survive the round
      trip through kebab-case. */
  lemma UpperDashRoundTrip(ws: seq<string>)
    requires |ws| >= 1
    requires forall k :: 0 <= k < |ws| ==> LowerWord(ws[k])
    ensures DashToUpper(UpperToDash(ConcatAll(CapitalizeAll(ws)))) == ConcatAll(CapitalizeAll(ws))
  {
    WordsOfCapitalized(ws);
    LowerCapitalized(ws);
    SplitJoin(ws, '-');
  }
}
