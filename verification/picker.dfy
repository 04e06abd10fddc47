/** Name-based selection of plugins (engines, analyses): a kebab-case key
    plus a class-name suffix names a class in an environment of bindings.
 */
module Picker {
  import opened Results
  import opened Text
  import opened Strings

  /** What an environment name is bound to: a class, with the names of
      itself and all of its base classes, or any other value. */
  datatype Binding = Class(ancestors: set<string>) | Other

  /** `to_class_name`: "changes-fast" with suffix "Analysis" names
      "ChangesFastAnalysis". */
  function ToClassName(key: string, suffix: string): string {
    DashToUpper(key) + suffix
  }

  /** `choose`: the binding of `className`, which must be a subclass of the
      class named `dest`. */
  function Choose(className: string, env: map<string, Binding>, dest: string): (r: Result<Binding>)
    ensures className !in env ==> r.Err?
    ensures r.Ok? <==> className in env && env[className].Class? && dest in env[className].ancestors
    ensures r.Ok? ==> r.value == env[className]
  {
    if className !in env then Err("Class " + className + " not found in the environment")
    else match env[className]
      case Other => Err(className + " is not a class")
      case Class(ancestors) =>
        if dest in ancestors then Ok(env[className])
        else Err(className + " is not a subclass of type " + dest)
  }

  predicate EndsWith(s: string, suffix: string) {
    |suffix| <= |s| && s[|s| - |suffix|..] == suffix
  }

  /** The names of the environment that are proper `suffix`-classes, with the
      suffix removed, in environment order. */
  function Stems(suffix: string, names: seq<string>): (r: seq<string>)
    ensures |r| <= |names|
    ensures forall x :: x in r <==>
      exists n :: n in names && EndsWith(n, suffix) && n != suffix && x == n[..|n| - |suffix|]
  {
    if names == [] then []
    else
      var n := names[0];
      var rest := Stems(suffix, names[1..]);
      assert forall m :: m in names <==> m == n || m in names[1..];
      if EndsWith(n, suffix) && n != suffix then [n[..|n| - |suffix|]] + rest else rest
  }

  function DashEach(ws: seq<string>): (r: seq<string>)
    ensures |r| == |ws| && forall k :: 0 <= k < |ws| ==> r[k] == UpperToDash(ws[k])
  {
    seq(|ws|, k requires 0 <= k < |ws| => UpperToDash(ws[k]))
  }

  /** `available`: the keys under which plugins of this kind can be chosen. */
  function Available(suffix: string, names: seq<string>): (r: seq<string>)
    ensures |r| <= |names|
    ensures forall x :: x in r <==>
      exists n :: n in names && EndsWith(n, suffix) && n != suffix && x == UpperToDash(n[..|n| - |suffix|])
  {
    var stems := Stems(suffix, names);
    var r := DashEach(stems);
    assert forall x :: x in r <==> exists st :: st in stems && x == UpperToDash(st) by {
      forall x ensures x in r <==> exists st :: st in stems && x == UpperToDash(st) {
        if x in r {
          var k :| 0 <= k < |r| && r[k] == x;
          assert stems[k] in stems;
        }
        if exists st :: st in stems && x == UpperToDash(st) {
          var st :| st in stems && x == UpperToDash(st);
          var k :| 0 <= k < |stems| && stems[k] == st;
          assert r[k] == x;
        }
      }
    }
    r
  }

  /** A class named by capitalised lower-case words plus the suffix is
      offered under a key that `ToClassName` turns back into its name. */
  lemma AvailableRoundTrip(suffix: string, names: seq<string>, ws: seq<string>)
    requires |ws| >= 1
    requires forall k :: 0 <= k < |ws| ==> LowerWord(ws[k])
    requires ConcatAll(CapitalizeAll(ws)) + suffix in names
    ensures UpperToDash(ConcatAll(CapitalizeAll(ws))) in Available(suffix, names)
    ensures ToClassName(UpperToDash(ConcatAll(CapitalizeAll(ws))), suffix) == ConcatAll(CapitalizeAll(ws)) + suffix
  {
    var stem := ConcatAll(CapitalizeAll(ws));
    var n := stem + suffix;
    assert |stem| > 0 by {
      assert CapitalizeAll(ws)[0] == Capitalize(ws[0]);
      assert stem == Capitalize(ws[0]) + ConcatAll(CapitalizeAll(ws)[1..]);
    }
    assert EndsWith(n, suffix) && n != suffix;
    assert n[..|n| - |suffix|] == stem;
    UpperDashRoundTrip(ws);
  }
}
