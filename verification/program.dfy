/** The text operations on an SPL program: reading its variable
    declaration, substituting the input-bounds and bucket markers, and
    unrolling its `while` loops. Reading and writing files is left to the
    caller; every operation here maps program text to program text.
 */
module Program {
  import opened Results
  import opened Text
  import opened Strings
  import opened Patterns
  import Buckets

  /* ------------------------------------------------------------ variables */

  /** `x` has the character `c` at position `i`. */
  lemma CharOccurs(x: string, c: char, i: nat)
    requires i < |x| && x[i] == c
    ensures OccursAt(x, [c], i)
  {
    assert x[i..i + 1] == [c];
  }

  /** `x.split(':')[0]`: the text before the first `:`, or all of it. */
  function BeforeColon(x: string): (r: string)
    ensures |r| <= |x| && r == x[..|r|] && ':' !in r
    ensures |r| == |x| || x[|r|] == ':'
  {
    var fi := FirstIndex(x, ":");
    if fi.None? then
      assert forall i :: 0 <= i < |x| ==> x[i] != ':' by {
        forall i | 0 <= i < |x| ensures x[i] != ':' {
          if x[i] == ':' {
            CharOccurs(x, ':', i);
          }
        }
      }
      SplitOn(x, ":")[0]
    else
      var i := fi.value;
      SplitOnStep(x, ":", i);
      assert x[i..i + 1] == ":";
      assert forall j :: 0 <= j < i ==> x[j] != ':' by {
        forall j | 0 <= j < i ensures x[j] != ':' {
          assert !OccursAt(x, ":", j);
          assert x[j..j + 1] == [x[j]];
        }
      }
      SplitOn(x, ":")[0]
  }

  function Names(items: seq<string>): (r: seq<string>)
    ensures |r| == |items| && forall k :: 0 <= k < |items| ==> r[k] == BeforeColon(items[k])
  {
    seq(|items|, k requires 0 <= k < |items| => BeforeColon(items[k]))
  }

  /** `SPLProgram.get_variables`: the first `var …;` line, with its
      whitespace removed, split on `,`, each item cut at its first `:`.
      A program without such a line raises. */
  function GetVariables(content: string): (r: Result<seq<string>>)
    ensures r.Err? <==> FindAllGreedy(content, "var ", ";", 0) == []
    ensures r.Ok? ==> var items := SplitOn(Clean(FindAllGreedy(content, "var ", ";", 0)[0]), ",");
      |r.value| == |items|
      && forall k :: 0 <= k < |items| ==> (|r.value[k]| <= |items[k]| && r.value[k] == items[k][..|r.value[k]|] && ':' !in r.value[k]
           && (|r.value[k]| == |items[k]| || items[k][|r.value[k]|] == ':'))
    ensures r.Ok? ==> forall k :: 0 <= k < |r.value| ==> forall c :: c in r.value[k] ==> !IsSpace(c) && c != ','
  {
    var groups := FindAllGreedy(content, "var ", ";", 0);
    if groups == [] then Err("IndexError: list index out of range")
    else
      var line := Clean(groups[0]);
      var items := SplitOn(line, ",");
      ItemsAreClean(line, items);
      Ok(Names(items))
  }

  /** The items of a cleaned declaration hold no whitespace and no comma. */
  lemma ItemsAreClean(line: string, items: seq<string>)
    requires (forall c :: c in line ==> !IsSpace(c)) && items == SplitOn(line, ",")
    ensures forall k :: 0 <= k < |items| ==> forall c :: c in items[k] ==> !IsSpace(c)
    ensures forall k :: 0 <= k < |items| ==> ',' !in items[k]
  {
    JoinSplit(line, ",");
    forall k | 0 <= k < |items| ensures forall c :: c in items[k] ==> !IsSpace(c) {
      JoinedPart(items, ",", k);
    }
    forall k | 0 <= k < |items| ensures ',' !in items[k] {
      SplitPiecesHaveNoComma(line, k);
    }
  }

  /** No piece of a split on `,` holds a comma. */
  lemma {:induction false} SplitPiecesHaveNoComma(s: string, k: nat)
    requires k < |SplitOn(s, ",")|
    ensures ',' !in SplitOn(s, ",")[k]
    decreases |s|
  {
    var fi := FirstIndex(s, ",");
    if fi.None? {
      forall i | 0 <= i < |s| ensures s[i] != ',' {
        if s[i] == ',' {
          CharOccurs(s, ',', i);
        }
      }
    } else {
      var i := fi.value;
      SplitOnStep(s, ",", i);
      if k == 0 {
        forall j | 0 <= j < i ensures s[j] != ',' {
          assert !OccursAt(s, ",", j);
          assert s[j..j + 1] == [s[j]];
        }
      } else {
        SplitPiecesHaveNoComma(s[i + 1..], k - 1);
      }
    }
  }

  /* -------------------------------------------------------------- markers */

  const InputBoundsMarker: string := "// INPUTBOUNDS"
  const BucketMarker: string := "// BUCKET"

  /** Replace a marker that must occur exactly once: any other count
      raises, and otherwise the marker is swapped for `rep` and the text
      around it is left as it was. */
  function ReplaceMarker(content: string, marker: string, rep: string): (r: Result<string>)
    requires |marker| > 0
    ensures r.Err? <==> CountOf(content, marker) != 1
    ensures r.Ok? ==> exists i :: (OccursAt(content, marker, i)
      && !Contains(content[..i], marker) && !Contains(content[i + |marker|..], marker)
      && r.value == content[..i] + rep + content[i + |marker|..])
  {
    if CountOf(content, marker) != 1 then Err("Could not find \"" + marker + "\"")
    else
      ReplaceUnique(content, marker, rep);
      Ok(ReplaceAll(content, marker, rep))
  }

  /** `replace_input_bounds`, with the bounds already rendered as text. */
  function ReplaceInputBounds(content: string, bounds: string): (r: Result<string>)
    ensures r.Err? <==> CountOf(content, InputBoundsMarker) != 1
    ensures r.Ok? ==> exists i :: (OccursAt(content, InputBoundsMarker, i)
      && r.value == content[..i] + bounds + content[i + |InputBoundsMarker|..])
  {
    ReplaceMarker(content, InputBoundsMarker, bounds)
  }

  /** `replace_bucket`: the marker becomes the bucket's failing guard. */
  function ReplaceBucket(content: string, b: Buckets.Bucket): (r: Result<string>)
    ensures r.Err? <==> CountOf(content, BucketMarker) != 1
    ensures r.Ok? ==> exists i :: (OccursAt(content, BucketMarker, i)
      && r.value == content[..i] + "if (" + b.condition + ") then fail; endif;" + content[i + |BucketMarker|..])
  {
    ReplaceMarker(content, BucketMarker, Buckets.ToSpl(b))
  }

  /* ------------------------------------------------------------ unrolling */

  /** `xs * n` on a Python list: no copy for `n <= 0`. */
  function Repeat<T>(xs: seq<T>, n: int): (r: seq<T>)
    ensures n <= 0 ==> r == []
    ensures n > 0 ==> |xs| <= |r| && r[..|xs|] == xs && r[|xs|..] == Repeat(xs, n - 1)
    decreases n
  {
    if n <= 0 then [] else xs + Repeat(xs, n - 1)
  }

  /** Joining a concatenation puts one separator between the halves. */
  lemma {:induction false} JoinAppend(a: seq<string>, b: seq<string>, sep: string)
    requires |a| > 0 && |b| > 0
    ensures JoinWith(a + b, sep) == JoinWith(a, sep) + sep + JoinWith(b, sep)
    decreases |a|
  {
    if |a| == 1 {
      assert ([a[0]] + b)[1..] == b;
      assert a + b == [a[0]] + b;
    } else {
      JoinAppend(a[1..], b, sep);
      assert (a + b)[1..] == a[1..] + b;
      assert (a + b)[0] == a[0];
    }
  }

  /** The guarded copy of a loop body. */
  function GuardedBody(cond: string, body: string): string {
    "if " + cond + " then" + body + "endif;"
  }

  /** The loop as it reads in the program. */
  function Loop(cond: string, body: string): string {
    "while " + cond + " do" + body + "done"
  }

  /** The unrolled prefix: the guarded body's lines, the whole list
      repeated `n` times, joined by newlines. */
  function Unrolling(cond: string, body: string, n: int): string {
    JoinWith(Repeat(SplitOn(GuardedBody(cond, body), "\n"), n), "\n")
  }

  /** Splitting into lines and joining the repeated list is the same as
      `n` copies of the guarded body separated by newlines. */
  lemma {:induction false} UnrollingIsCopies(cond: string, body: string, n: int)
    ensures Unrolling(cond, body, n) == JoinWith(Repeat([GuardedBody(cond, body)], n), "\n")
    decreases n
  {
    var t := GuardedBody(cond, body);
    var lines := SplitOn(t, "\n");
    JoinSplit(t, "\n");
    if n == 1 {
      assert Repeat(lines, 1) == lines;
      assert Repeat([t], 1) == [t];
    } else if n > 1 {
      UnrollingIsCopies(cond, body, n - 1);
      assert Repeat(lines, n) == lines + Repeat(lines, n - 1);
      assert Repeat([t], n) == [t] + Repeat([t], n - 1);
      JoinAppend(lines, Repeat(lines, n - 1), "\n");
      JoinAppend([t], Repeat([t], n - 1), "\n");
    }
  }

  /** One loop of `unroll_loops`. A body without a newline raises, since
      its second-to-last line is read; otherwise the loop (or, within the
      loop, its body) is replaced everywhere. */
  function UnrollStep(content: string, cond: string, body: string, n: int, within: bool): (r: Result<string>)
    ensures r.Err? <==> '\n' !in body
  {
    if '\n' !in body then Err("IndexError: list index out of range")
    else
      var u := Unrolling(cond, body, n);
      if within then Ok(ReplaceAll(content, body, body + u + "\n"))
      else Ok(ReplaceAll(content, Loop(cond, body), u + "\n" + Loop(cond, body) + "\n"))
  }

  /** A loop that occurs once is preceded by `n` guarded copies of its
      body, and nothing else changes. */
  lemma UnrollOnce(content: string, cond: string, body: string, n: int)
    requires '\n' in body && CountOf(content, Loop(cond, body)) == 1
    ensures exists i :: (OccursAt(content, Loop(cond, body), i)
      && UnrollStep(content, cond, body, n, false) == Ok(content[..i]
           + (JoinWith(Repeat([GuardedBody(cond, body)], n), "\n") + "\n" + Loop(cond, body) + "\n")
           + content[i + |Loop(cond, body)|..]))
  {
    var loop := Loop(cond, body);
    var u := Unrolling(cond, body, n);
    var rep := u + "\n" + loop + "\n";
    assert UnrollStep(content, cond, body, n, false) == Ok(ReplaceAll(content, loop, rep));
    ReplaceUnique(content, loop, rep);
    UnrollingIsCopies(cond, body, n);
    var i :| OccursAt(content, loop, i)
      && ReplaceAll(content, loop, rep) == content[..i] + rep + content[i + |loop|..];
  }

  /** Every zipped pair of condition and body, in order. */
  function UnrollAll(content: string, conds: seq<string>, bodies: seq<string>, n: int, within: bool): (r: Result<string>)
    ensures r.Err? <==> exists k :: 0 <= k < |conds| && k < |bodies| && '\n' !in bodies[k]
    decreases |conds|
  {
    if conds == [] || bodies == [] then Ok(content)
    else
      var next := UnrollStep(content, conds[0], bodies[0], n, within);
      if next.Err? then Err(next.msg)
      else
        var rest := UnrollAll(next.value, conds[1..], bodies[1..], n, within);
        assert forall k :: 1 <= k < |conds| && k < |bodies| ==> conds[1..][k - 1] == conds[k] && bodies[1..][k - 1] == bodies[k];
        rest
  }

  /** The loop conditions: `while (.+) do`, greedy on one line. */
  function Conditions(content: string): seq<string> {
    FindAllGreedy(content, "while ", " do", 0)
  }

  /** The loop bodies: `do(.*?)done` across lines. */
  function Bodies(content: string): seq<string> {
    FindAllLazy(content, "do", "done", 0)
  }

  /** `unroll_loops`: no unrolling, or no loop, leaves the program as it
      is; otherwise every condition is paired with the body in the same
      position and unrolled in turn. */
  function UnrollLoops(content: string, n: int, within: bool): (r: Result<string>)
    ensures n == 0 ==> r == Ok(content)
    ensures Conditions(content) == [] ==> r == Ok(content)
    ensures r.Err? <==> (n != 0 && Conditions(content) != []
      && exists k :: 0 <= k < |Conditions(content)| && k < |Bodies(content)| && '\n' !in Bodies(content)[k])
  {
    if n == 0 then Ok(content)
    else
      var conds := Conditions(content);
      if conds == [] then Ok(content)
      else UnrollAll(content, conds, Bodies(content), n, within)
  }
}
