/** The overlap graph of a list of values and its maximal cliques
    (`intersecting_pairs`, `intersecting_cliques`).

    Values are named by their index in the list. The overlap test is a
    parameter `test(i, j)`, which may raise. The graph has the recorded
    pairs as edges and their endpoints as nodes; its maximal cliques are
    those of the graph library, enumerated here exhaustively (only the set
    of cliques matters to every result).
 */
module Overlap {
  import opened Results

  type Edge = (nat, nat)

  type Test = (nat, nat) -> Result<bool>

  /** `(a, b)` comes before `(i, j)` in the loops' order. */
  predicate Before(a: nat, b: nat, i: nat, j: nat) {
    a < i || (a == i && b < j)
  }

  /** The loops ask about `(i, j)` when `i != j` and `(j, i)` was not
      recorded earlier. */
  predicate Asked(test: Test, i: nat, j: nat) {
    i != j && !(j < i && test(j, i) == Ok(true))
  }

  predicate Recorded(test: Test, i: nat, j: nat) {
    Asked(test, i, j) && test(i, j) == Ok(true)
  }

  /** The pairs recorded before `(i, j)` are exactly those in `acc`. */
  ghost predicate AccAt(acc: set<Edge>, n: nat, test: Test, i: nat, j: nat) {
    forall a: nat, b: nat :: (a, b) in acc <==> a < n && b < n && Before(a, b, i, j) && Recorded(test, a, b)
  }

  /** Some pair asked from `(i, j)` on raises. */
  ghost predicate ErrAt(n: nat, test: Test, i: nat, j: nat) {
    exists a: nat, b: nat :: a < n && b < n && !Before(a, b, i, j) && Asked(test, a, b) && test(a, b).Err?
  }

  /** The mirrored pair was recorded before `(i, j)` exactly when it was
      recorded at all and comes first. */
  lemma AccLookup(acc: set<Edge>, n: nat, test: Test, i: nat, j: nat)
    requires i < n && j < n && AccAt(acc, n, test, i, j)
    ensures (j, i) in acc <==> j < i && Recorded(test, j, i)
    ensures (j, i) !in acc ==> (Asked(test, i, j) <==> i != j)
  {
    assert (j, i) in acc <==> j < n && i < n && Before(j, i, i, j) && Recorded(test, j, i);
  }

  /** Moving on from `(i, j)` adds `(i, j)` exactly when it is recorded. */
  lemma AccStep(acc: set<Edge>, n: nat, test: Test, i: nat, j: nat, rec: bool)
    requires i < n && j < n && AccAt(acc, n, test, i, j)
    requires rec == Recorded(test, i, j)
    ensures AccAt(if rec then acc + {(i, j)} else acc, n, test, i, j + 1)
  {
    var acc' := if rec then acc + {(i, j)} else acc;
    forall a: nat, b: nat
      ensures (a, b) in acc' <==> a < n && b < n && Before(a, b, i, j + 1) && Recorded(test, a, b)
    {
      BeforeStepAt(a, b, i, j);
      assert (a, b) in acc <==> a < n && b < n && Before(a, b, i, j) && Recorded(test, a, b);
    }
  }

  /** The end of a row is the start of the next. */
  lemma AccRow(acc: set<Edge>, n: nat, test: Test, i: nat)
    requires i < n && AccAt(acc, n, test, i, n)
    ensures AccAt(acc, n, test, i + 1, 0)
  {
    forall a: nat, b: nat
      ensures (a, b) in acc <==> a < n && b < n && Before(a, b, i + 1, 0) && Recorded(test, a, b)
    {
      assert (a, b) in acc <==> a < n && b < n && Before(a, b, i, n) && Recorded(test, a, b);
    }
  }

  /** Past the last row every pair has been seen. */
  lemma AccDone(acc: set<Edge>, n: nat, test: Test, j: nat)
    requires AccAt(acc, n, test, n, j)
    ensures forall a: nat, b: nat :: (a, b) in acc <==> a < n && b < n && Recorded(test, a, b)
  {
    forall a: nat, b: nat
      ensures (a, b) in acc <==> a < n && b < n && Recorded(test, a, b)
    {
      assert (a, b) in acc <==> a < n && b < n && Before(a, b, n, j) && Recorded(test, a, b);
    }
  }

  lemma ErrStep(n: nat, test: Test, i: nat, j: nat)
    requires i < n && j < n
    ensures ErrAt(n, test, i, j) <==> (Asked(test, i, j) && test(i, j).Err?) || ErrAt(n, test, i, j + 1)
  {
    if ErrAt(n, test, i, j) && !(Asked(test, i, j) && test(i, j).Err?) {
      var a: nat, b: nat :| a < n && b < n && !Before(a, b, i, j) && Asked(test, a, b) && test(a, b).Err?;
      BeforeStepAt(a, b, i, j);
    }
    if ErrAt(n, test, i, j + 1) {
      var a: nat, b: nat :| a < n && b < n && !Before(a, b, i, j + 1) && Asked(test, a, b) && test(a, b).Err?;
      BeforeStepAt(a, b, i, j);
    }
  }

  lemma ErrRow(n: nat, test: Test, i: nat)
    requires i < n
    ensures ErrAt(n, test, i, n) <==> ErrAt(n, test, i + 1, 0)
  {
    if ErrAt(n, test, i, n) {
      var a: nat, b: nat :| a < n && b < n && !Before(a, b, i, n) && Asked(test, a, b) && test(a, b).Err?;
      assert !Before(a, b, i + 1, 0);
    }
    if ErrAt(n, test, i + 1, 0) {
      var a: nat, b: nat :| a < n && b < n && !Before(a, b, i + 1, 0) && Asked(test, a, b) && test(a, b).Err?;
      assert !Before(a, b, i, n);
    }
  }

  lemma ErrDone(n: nat, test: Test, j: nat)
    ensures !ErrAt(n, test, n, j)
  {
    forall a: nat, b: nat | a < n && b < n
      ensures Before(a, b, n, j)
    {
    }
  }

  /** The loops of `intersecting_pairs` from `(i, j)` on, with the pairs
      recorded so far. */
  function PairsFrom(n: nat, test: Test, i: nat, j: nat, acc: set<Edge>): (r: Result<set<Edge>>)
    requires i <= n && j <= n
    requires AccAt(acc, n, test, i, j)
    ensures r.Ok? ==> forall a: nat, b: nat :: (a, b) in r.value <==> a < n && b < n && Recorded(test, a, b)
    ensures r.Err? <==> ErrAt(n, test, i, j)
    decreases n - i, n - j
  {
    if i == n then
      AccDone(acc, n, test, j);
      ErrDone(n, test, j);
      Ok(acc)
    else if j == n then
      AccRow(acc, n, test, i);
      ErrRow(n, test, i);
      PairsFrom(n, test, i + 1, 0, acc)
    else
      AccLookup(acc, n, test, i, j);
      ErrStep(n, test, i, j);
      if i != j && (j, i) !in acc then
        var t := test(i, j);
        if t.Err? then Err(t.msg)
        else
          AccStep(acc, n, test, i, j, t.value);
          PairsFrom(n, test, i, j + 1, if t.value then acc + {(i, j)} else acc)
      else
        AccStep(acc, n, test, i, j, false);
        PairsFrom(n, test, i, j + 1, acc)
  }

  /** Moving the loops one step on adds exactly the pair just left. */
  lemma BeforeStepAt(a: nat, b: nat, i: nat, j: nat)
    ensures Before(a, b, i, j + 1) <==> Before(a, b, i, j) || (a == i && b == j)
  {
  }

  /** `intersecting_pairs` over `n` values. */
  function Pairs(n: nat, test: Test): (r: Result<set<Edge>>)
    ensures r.Ok? ==> forall a: nat, b: nat :: (a, b) in r.value <==> a < n && b < n && Recorded(test, a, b)
    ensures r.Err? <==> exists a: nat, b: nat :: a < n && b < n && Asked(test, a, b) && test(a, b).Err?
  {
    assert AccAt({}, n, test, 0, 0);
    PairsFrom(n, test, 0, 0, {})
  }

  /* ---------------------------------------------------------------- graph */

  function Nodes(edges: set<Edge>): set<nat> {
    (set e | e in edges :: e.0) + (set e | e in edges :: e.1)
  }

  predicate Adjacent(edges: set<Edge>, u: nat, v: nat) {
    (u, v) in edges || (v, u) in edges
  }

  predicate IsClique(edges: set<Edge>, c: set<nat>) {
    forall u, v :: u in c && v in c && u != v ==> Adjacent(edges, u, v)
  }

  /** A clique of the graph no node of the graph extends. */
  predicate IsMaximalClique(edges: set<Edge>, c: set<nat>) {
    (exists u :: u in c) && c <= Nodes(edges) && IsClique(edges, c)
    && forall v :: v in Nodes(edges) && v !in c ==> !IsClique(edges, c + {v})
  }

  /** Every subset of `{0, …, n - 1}`. */
  function Subsets(n: nat): (r: seq<set<nat>>)
    ensures forall k :: 0 <= k < |r| ==> forall x :: x in r[k] ==> x < n
  {
    if n == 0 then [{}]
    else
      var s := Subsets(n - 1);
      s + seq(|s|, k requires 0 <= k < |s| => s[k] + {n - 1})
  }

  /** The maximal cliques among the candidates, in candidate order. */
  function KeepMaximal(cs: seq<set<nat>>, edges: set<Edge>): (r: seq<set<nat>>)
    ensures forall k :: 0 <= k < |r| ==> IsMaximalClique(edges, r[k]) && r[k] in cs
    ensures forall c :: c in cs && IsMaximalClique(edges, c) ==> c in r
  {
    if cs == [] then []
    else
      var rest := KeepMaximal(cs[1..], edges);
      if IsMaximalClique(edges, cs[0]) then [cs[0]] + rest else rest
  }

  /** `find_cliques` of the graph, over nodes below `n`. */
  function MaximalCliques(edges: set<Edge>, n: nat): (r: seq<set<nat>>)
    ensures forall k :: 0 <= k < |r| ==> IsMaximalClique(edges, r[k])
  {
    KeepMaximal(Subsets(n), edges)
  }

  /** Every node that lies in some clique of the list. */
  function Members(cl: seq<set<nat>>): set<nat> {
    set k, v | 0 <= k < |cl| && v in cl[k] :: v
  }

  /** The map `intersecting_cliques` builds: each node of a clique maps to
      the clique without it, for every clique containing it. */
  function CliqueMap(cl: seq<set<nat>>): (m: map<nat, set<set<nat>>>)
    ensures m.Keys == Members(cl)
  {
    map v | v in Members(cl) :: set k | 0 <= k < |cl| && v in cl[k] :: cl[k] - {v}
  }

  /** `intersecting_cliques`. */
  function Cliques(n: nat, test: Test): (r: Result<map<nat, set<set<nat>>>>)
    ensures r.Err? <==> Pairs(n, test).Err?
    ensures r.Ok? ==> r.value == CliqueMap(MaximalCliques(Pairs(n, test).value, n))
  {
    var edges :- Pairs(n, test);
    Ok(CliqueMap(MaximalCliques(edges, n)))
  }

  /* ------------------------------------------------------------ properties */

  /** No pair is recorded twice or with itself, and two values are joined
      exactly when the test answered `True` in either order. */
  lemma PairsShape(n: nat, test: Test, a: nat, b: nat)
    requires Pairs(n, test).Ok?
    ensures (a, b) in Pairs(n, test).value ==> a != b && (b, a) !in Pairs(n, test).value
    ensures Adjacent(Pairs(n, test).value, a, b) <==>
      a < n && b < n && a != b && (test(a, b) == Ok(true) || test(b, a) == Ok(true))
  {
  }

  lemma {:induction false} SubsetsComplete(n: nat, c: set<nat>)
    requires forall x :: x in c ==> x < n
    ensures c in Subsets(n)
  {
    if n > 0 {
      var s := Subsets(n - 1);
      var t: seq<set<nat>> := seq(|s|, k requires 0 <= k < |s| => s[k] + {n - 1});
      assert Subsets(n) == s + t;
      if n - 1 in c {
        var c0 := c - {n - 1};
        SubsetsComplete(n - 1, c0);
        var k :| 0 <= k < |s| && s[k] == c0;
        assert c == s[k] + {n - 1} == t[k];
        assert (s + t)[|s| + k] == c;
      } else {
        SubsetsComplete(n - 1, c);
        var k :| 0 <= k < |s| && s[k] == c;
        assert (s + t)[k] == c;
      }
    } else {
      assert forall x :: x !in c;
      assert c == {};
      assert Subsets(0)[0] == c;
    }
  }

  /** The enumeration finds every maximal clique among the nodes below `n`. */
  lemma MaximalCliquesComplete(edges: set<Edge>, n: nat, c: set<nat>)
    requires IsMaximalClique(edges, c) && forall x :: x in c ==> x < n
    ensures c in MaximalCliques(edges, n)
  {
    SubsetsComplete(n, c);
  }

  /** The greedy extension: nodes from `from` on are added in order when
      they keep a clique. */
  function Grow(edges: set<Edge>, nodes: seq<nat>, from: nat, c: set<nat>): (r: set<nat>)
    requires from <= |nodes|
    decreases |nodes| - from
  {
    if from == |nodes| then c
    else if IsClique(edges, c + {nodes[from]}) then Grow(edges, nodes, from + 1, c + {nodes[from]})
    else Grow(edges, nodes, from + 1, c)
  }

  lemma {:induction false} GrowMaximal(edges: set<Edge>, nodes: seq<nat>, from: nat, c: set<nat>)
    requires from <= |nodes| && IsClique(edges, c)
    requires forall k :: 0 <= k < from ==> nodes[k] in c || !IsClique(edges, c + {nodes[k]})
    ensures c <= Grow(edges, nodes, from, c) && IsClique(edges, Grow(edges, nodes, from, c))
    ensures Grow(edges, nodes, from, c) <= c + set k | from <= k < |nodes| :: nodes[k]
    ensures forall k :: 0 <= k < |nodes| ==>
      nodes[k] in Grow(edges, nodes, from, c) || !IsClique(edges, Grow(edges, nodes, from, c) + {nodes[k]})
    decreases |nodes| - from
  {
    if from < |nodes| {
      var x := nodes[from];
      var c1 := if IsClique(edges, c + {x}) then c + {x} else c;
      forall k | 0 <= k < from + 1
        ensures nodes[k] in c1 || !IsClique(edges, c1 + {nodes[k]})
      {
        if nodes[k] !in c1 && k < from {
          NotCliqueGrows(edges, c + {nodes[k]}, c1 + {nodes[k]});
        }
      }
      GrowMaximal(edges, nodes, from + 1, c1);
      var g := Grow(edges, nodes, from, c);
      forall k | 0 <= k < |nodes|
        ensures nodes[k] in g || !IsClique(edges, g + {nodes[k]})
      {
      }
    }
  }

  /** A superset of a non-clique is not a clique. */
  lemma NotCliqueGrows(edges: set<Edge>, small: set<nat>, big: set<nat>)
    requires small <= big && !IsClique(edges, small)
    ensures !IsClique(edges, big)
  {
  }

  /** The nodes of the graph as a list. */
  function NodeList(edges: set<Edge>, n: nat): (r: seq<nat>)
    ensures forall k :: 0 <= k < |r| ==> r[k] in Nodes(edges)
    ensures forall v :: v in Nodes(edges) && v < n ==> v in r
  {
    if n == 0 then []
    else
      var rest := NodeList(edges, n - 1);
      if n - 1 in Nodes(edges) then rest + [n - 1] else rest
  }

  /** Every node of the graph lies in some maximal clique. */
  lemma NodeInMaximalClique(edges: set<Edge>, n: nat, v: nat)
    requires v in Nodes(edges) && forall u :: u in Nodes(edges) ==> u < n
    ensures exists c :: IsMaximalClique(edges, c) && v in c
  {
    var nodes := NodeList(edges, n);
    GrowMaximal(edges, nodes, 0, {v});
    var g := Grow(edges, nodes, 0, {v});
    assert g <= Nodes(edges);
    forall u | u in Nodes(edges) && u !in g
      ensures !IsClique(edges, g + {u})
    {
      var k :| 0 <= k < |nodes| && nodes[k] == u;
    }
    assert IsMaximalClique(edges, g);
  }

  /** A node of the graph has a neighbour, so no maximal clique is a single
      node. */
  lemma MaximalCliqueHasTwo(edges: set<Edge>, c: set<nat>, v: nat)
    requires IsMaximalClique(edges, c) && v in c
    requires forall e :: e in edges ==> e.0 != e.1
    ensures exists u :: u in c && u != v
  {
    var e :| e in edges && (e.0 == v || e.1 == v);
    var u := if e.0 == v then e.1 else e.0;
    assert Adjacent(edges, v, u) && u != v && u in Nodes(edges);
    if u !in c {
      assert !IsClique(edges, c + {u});
      var x, y :| x in c + {u} && y in c + {u} && x != y && !Adjacent(edges, x, y);
      var w := if x == u then y else x;
      assert w in c && w != v;
    }
  }

  /** The keys of the clique map are exactly the nodes of the graph. */
  lemma CliqueMapKeys(edges: set<Edge>, n: nat)
    requires forall u :: u in Nodes(edges) ==> u < n
    ensures CliqueMap(MaximalCliques(edges, n)).Keys == Nodes(edges)
  {
    var cl := MaximalCliques(edges, n);
    forall v | v in Nodes(edges)
      ensures v in Members(cl)
    {
      NodeInMaximalClique(edges, n, v);
      var c :| IsMaximalClique(edges, c) && v in c;
      MaximalCliquesComplete(edges, n, c);
      var k :| 0 <= k < |cl| && cl[k] == c;
    }
  }

  /** The entry of a node lists, for every maximal clique containing it, the
      rest of the clique, and nothing else. */
  lemma CliqueMapEntries(edges: set<Edge>, n: nat, v: nat, rest: set<nat>)
    requires forall u :: u in Nodes(edges) ==> u < n
    requires v in CliqueMap(MaximalCliques(edges, n))
    ensures rest in CliqueMap(MaximalCliques(edges, n))[v] <==> v !in rest && IsMaximalClique(edges, rest + {v})
  {
    var cl := MaximalCliques(edges, n);
    CliqueMapAt(cl, v, rest);
    if v !in rest && IsMaximalClique(edges, rest + {v}) {
      MaximalCliquesComplete(edges, n, rest + {v});
      var k :| 0 <= k < |cl| && cl[k] == rest + {v};
      assert cl[k] - {v} == rest;
    }
    if rest in CliqueMap(cl)[v] {
      var k :| 0 <= k < |cl| && v in cl[k] && cl[k] - {v} == rest;
      PutBack(cl[k], v);
    }
  }

  /** Taking a member out and putting it back gives the set again. */
  lemma PutBack(c: set<nat>, v: nat)
    requires v in c
    ensures (c - {v}) + {v} == c
  {
  }

  /** A key's entry holds each clique containing it, with the key taken
      out. */
  lemma CliqueMapAt(cl: seq<set<nat>>, v: nat, rest: set<nat>)
    requires v in Members(cl)
    ensures rest in CliqueMap(cl)[v] <==> exists k :: 0 <= k < |cl| && v in cl[k] && cl[k] - {v} == rest
  {
  }

  /** Every entry is non-empty and so is every clique rest in it: a node of
      the graph has a neighbour. */
  lemma CliqueMapNonEmpty(n: nat, test: Test, v: nat)
    requires Cliques(n, test).Ok? && v in Cliques(n, test).value
    ensures exists rest :: rest in Cliques(n, test).value[v]
    ensures forall rest :: rest in Cliques(n, test).value[v] ==> exists u :: u in rest
  {
    var edges := Pairs(n, test).value;
    var cl := MaximalCliques(edges, n);
    var k :| 0 <= k < |cl| && v in cl[k];
    assert cl[k] - {v} in CliqueMap(cl)[v];
    forall rest | rest in CliqueMap(cl)[v]
      ensures exists u :: u in rest
    {
      var j :| 0 <= j < |cl| && v in cl[j] && cl[j] - {v} == rest;
      MaximalCliqueHasTwo(edges, cl[j], v);
      var u :| u in cl[j] && u != v;
      assert u in rest;
    }
  }

  /** A node of the graph is a value that overlaps some other value. */
  lemma NodesMeaning(n: nat, test: Test, v: nat)
    requires Pairs(n, test).Ok?
    ensures v in Nodes(Pairs(n, test).value) <==>
      v < n && exists u: nat :: u < n && u != v && (test(v, u) == Ok(true) || test(u, v) == Ok(true))
  {
    var edges := Pairs(n, test).value;
    if v in Nodes(edges) {
      var e :| e in edges && (e.0 == v || e.1 == v);
      var u := if e.0 == v then e.1 else e.0;
      PairsShape(n, test, v, u);
      assert Adjacent(edges, v, u);
    }
    if v < n && exists u: nat :: u < n && u != v && (test(v, u) == Ok(true) || test(u, v) == Ok(true)) {
      var u: nat :| u < n && u != v && (test(v, u) == Ok(true) || test(u, v) == Ok(true));
      PairsShape(n, test, v, u);
      assert (v, u) in edges || (u, v) in edges;
    }
  }

  /** Every clique rest in the map is a set of other values below `n`. */
  lemma CliqueRestBounded(edges: set<Edge>, n: nat, v: nat, rest: set<nat>)
    requires v in CliqueMap(MaximalCliques(edges, n)) && rest in CliqueMap(MaximalCliques(edges, n))[v]
    ensures v < n && v !in rest && forall x :: x in rest ==> x < n
  {
    var cl := MaximalCliques(edges, n);
    var k :| 0 <= k < |cl| && v in cl[k] && cl[k] - {v} == rest;
    assert cl[k] in Subsets(n);
  }

  /** The values below `n`. */
  function Below(n: nat): (r: set<nat>)
    ensures forall x: nat :: x in r <==> x < n
  {
    if n == 0 then {} else Below(n - 1) + {n - 1}
  }

  lemma {:induction false} BelowSize(n: nat)
    ensures |Below(n)| == n
  {
    if n > 0 {
      var b := Below(n - 1);
      BelowSize(n - 1);
      assert Below(n) == b + {n - 1} && n - 1 !in b;
    }
  }

  /** A set of values below `n` has at most `n` elements. */
  lemma SubsetSize(s: set<nat>, n: nat)
    requires forall x :: x in s ==> x < n
    ensures |s| <= n
  {
    BelowSize(n);
    assert s <= Below(n);
    SubsetCard(s, Below(n));
  }

  lemma {:induction false} SubsetCard(s: set<nat>, t: set<nat>)
    requires s <= t
    ensures |s| <= |t|
    decreases t
  {
    if exists x :: x in s {
      var x :| x in s;
      SubsetCard(s - {x}, t - {x});
    } else {
      assert forall x :: x !in s;
      assert s == {};
    }
  }

  /** A clique rest has fewer elements than there are values. */
  lemma CliqueRestSize(edges: set<Edge>, n: nat, v: nat, rest: set<nat>)
    requires v in CliqueMap(MaximalCliques(edges, n)) && rest in CliqueMap(MaximalCliques(edges, n))[v]
    ensures |rest| < n
  {
    CliqueRestBounded(edges, n, v, rest);
    SubsetSize(rest + {v}, n);
  }

  /* ------------------------------------------------- the map, abstractly */

  /** `m` is the clique map of a loop-free graph over values below `n`:
      its keys are the graph's nodes and each key's entry holds the rest of
      every maximal clique containing it. */
  ghost predicate IsCliqueMapOf(m: map<nat, set<set<nat>>>, edges: set<Edge>, n: nat) {
    (forall u :: u in Nodes(edges) ==> u < n)
    && (forall e :: e in edges ==> e.0 != e.1)
    && (forall v :: v in m <==> v in Nodes(edges))
    && (forall v, rest :: v in m ==> (rest in m[v] <==> v !in rest && IsMaximalClique(edges, rest + {v})))
  }

  /** `intersecting_cliques` builds the clique map of the overlap graph. */
  lemma CliquesAreCliqueMap(n: nat, test: Test)
    requires Cliques(n, test).Ok?
    ensures IsCliqueMapOf(Cliques(n, test).value, Pairs(n, test).value, n)
  {
    var edges := Pairs(n, test).value;
    var m := Cliques(n, test).value;
    forall u | u in Nodes(edges) ensures u < n {
      NodesMeaning(n, test, u);
    }
    forall e | e in edges ensures e.0 != e.1 {
      PairsShape(n, test, e.0, e.1);
    }
    CliqueMapKeys(edges, n);
    forall v, rest | v in m
      ensures rest in m[v] <==> v !in rest && IsMaximalClique(edges, rest + {v})
    {
      CliqueMapEntries(edges, n, v, rest);
    }
  }

  /** Every clique rest is a non-empty set of other values below `n`. */
  lemma RestShape(m: map<nat, set<set<nat>>>, edges: set<Edge>, n: nat, v: nat, rest: set<nat>)
    requires IsCliqueMapOf(m, edges, n) && v in m && rest in m[v]
    ensures v !in rest && (exists u :: u in rest) && (forall x :: x in rest ==> x < n)
    ensures 1 <= |rest| < n
  {
    var c := rest + {v};
    assert IsMaximalClique(edges, c);
    MaximalCliqueHasTwo(edges, c, v);
    var u :| u in c && u != v;
    assert u in rest;
    assert rest == (rest - {u}) + {u};
    SubsetSize(c, n);
  }

  /** Every key has at least one clique rest. */
  lemma EntryNonEmpty(m: map<nat, set<set<nat>>>, edges: set<Edge>, n: nat, v: nat)
    requires IsCliqueMapOf(m, edges, n) && v in m
    ensures exists rest :: rest in m[v]
  {
    NodeInMaximalClique(edges, n, v);
    var c :| IsMaximalClique(edges, c) && v in c;
    assert (c - {v}) + {v} == c;
    assert c - {v} in m[v];
  }

  /** The map is empty exactly when the graph has no edge. */
  lemma CliqueMapEmpty(m: map<nat, set<set<nat>>>, edges: set<Edge>, n: nat)
    requires IsCliqueMapOf(m, edges, n)
    ensures m == map[] <==> edges == {}
  {
    if exists e :: e in edges {
      var e :| e in edges;
      assert e.0 in Nodes(edges);
      assert e.0 in m;
    } else {
      assert edges == {};
      assert forall v :: v !in m;
      assert m == map[];
    }
  }
}
