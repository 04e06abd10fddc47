/** Python's filtering comprehension `[x for x in s if keep(x)]`, with the
    positions it keeps: the reference against which the order-preserving
    loops of the model are stated.
 */
module Filtering {

  /** `[x for x in s if keep(x)]`. */
  function Filter<T>(s: seq<T>, keep: T -> bool): (r: seq<T>)
    ensures |r| <= |s|
  {
    if s == [] then [] else (if keep(s[0]) then [s[0]] else []) + Filter(s[1..], keep)
  }

  /** The positions of the kept elements, in increasing order. */
  function Positions<T>(s: seq<T>, keep: T -> bool): (idx: seq<nat>)
    ensures |idx| <= |s|
  {
    if s == [] then [] else (if keep(s[0]) then [0] else []) + Shift(Positions(s[1..], keep))
  }

  /** Every position moved one place right. */
  function Shift(idx: seq<nat>): (r: seq<nat>)
    ensures |r| == |idx| && forall k :: 0 <= k < |idx| ==> r[k] == idx[k] + 1
  {
    seq(|idx|, k requires 0 <= k < |idx| => idx[k] + 1)
  }

  /** `r` is `s` read at the increasing positions `idx`, and those are
      exactly the positions whose element is kept. Such an `r` is unique:
      it lists the kept elements once each, in their order in `s`. */
  ghost predicate SelectsInOrder<T>(r: seq<T>, s: seq<T>, keep: T -> bool, idx: seq<nat>) {
    |r| == |idx|
    && (forall k :: 0 <= k < |idx| ==> idx[k] < |s| && r[k] == s[idx[k]])
    && (forall k, l :: 0 <= k < l < |idx| ==> idx[k] < idx[l])
    && (forall j :: 0 <= j < |s| ==> (keep(s[j]) <==> j in idx))
  }

  /** The filter keeps exactly the kept elements, in order. */
  lemma {:induction false} FilterInOrder<T>(s: seq<T>, keep: T -> bool)
    ensures SelectsInOrder(Filter(s, keep), s, keep, Positions(s, keep))
  {
    FilterAt(s, keep);
    assert ReadsAt(Filter(s, keep), s, Positions(s, keep));
    PositionsIncreasing(s, keep);
    assert Increasing(Positions(s, keep));
    PositionsExact(s, keep);
  }

  /** `r` is `s` read at the positions `idx`. */
  ghost predicate ReadsAt<T>(r: seq<T>, s: seq<T>, idx: seq<nat>) {
    |r| == |idx| && forall k :: 0 <= k < |idx| ==> idx[k] < |s| && r[k] == s[idx[k]]
  }

  lemma {:induction false} FilterAt<T>(s: seq<T>, keep: T -> bool)
    ensures ReadsAt(Filter(s, keep), s, Positions(s, keep))
    decreases |s|
  {
    if s != [] {
      var r, idx := Filter(s[1..], keep), Positions(s[1..], keep);
      FilterAt(s[1..], keep);
      ReadsAtShift(s, r, idx);
      if keep(s[0]) {
        assert Filter(s, keep) == [s[0]] + r && Positions(s, keep) == [0] + Shift(idx);
        ReadsAtHead(s, r, Shift(idx));
      } else {
        assert Filter(s, keep) == r && Positions(s, keep) == Shift(idx);
      }
    }
  }

  /** Reading the tail at `idx` is reading the whole at the shifted
      positions. */
  lemma ReadsAtShift<T>(s: seq<T>, r: seq<T>, idx: seq<nat>)
    requires |s| > 0 && ReadsAt(r, s[1..], idx)
    ensures ReadsAt(r, s, Shift(idx))
  {
    var sh := Shift(idx);
    forall k | 0 <= k < |idx| ensures sh[k] < |s| && r[k] == s[sh[k]] {
      assert s[1..][idx[k]] == s[idx[k] + 1];
    }
  }

  /** Reading the head first adds position 0. */
  lemma ReadsAtHead<T>(s: seq<T>, r: seq<T>, idx: seq<nat>)
    requires |s| > 0 && ReadsAt(r, s, idx)
    ensures ReadsAt([s[0]] + r, s, [0] + idx)
  {
    var r2, idx2 := [s[0]] + r, [0] + idx;
    forall k | 0 < k < |idx2| ensures idx2[k] < |s| && r2[k] == s[idx2[k]] {
      assert idx2[k] == idx[k - 1] && r2[k] == r[k - 1];
    }
  }

  /** `idx` lists strictly increasing positions. */
  ghost predicate Increasing(idx: seq<nat>) {
    forall k, l :: 0 <= k < l < |idx| ==> idx[k] < idx[l]
  }

  lemma {:induction false} PositionsIncreasing<T>(s: seq<T>, keep: T -> bool)
    ensures Increasing(Positions(s, keep))
    decreases |s|
  {
    if s != [] {
      var sh := Shift(Positions(s[1..], keep));
      PositionsIncreasing(s[1..], keep);
      ShiftIncreasing(Positions(s[1..], keep));
      if keep(s[0]) {
        assert Positions(s, keep) == [0] + sh;
        HeadIncreasing(sh);
      } else {
        assert Positions(s, keep) == sh;
      }
    }
  }

  lemma ShiftIncreasing(idx: seq<nat>)
    requires Increasing(idx)
    ensures Increasing(Shift(idx)) && forall k :: 0 <= k < |idx| ==> Shift(idx)[k] > 0
  {
  }

  lemma HeadIncreasing(idx: seq<nat>)
    requires Increasing(idx) && forall k :: 0 <= k < |idx| ==> idx[k] > 0
    ensures Increasing([0] + idx)
  {
    var r := [0] + idx;
    forall k, l | 0 <= k < l < |r| ensures r[k] < r[l] {
      assert r[l] == idx[l - 1];
      if k > 0 {
        assert r[k] == idx[k - 1];
      }
    }
  }

  lemma {:induction false} PositionsExact<T>(s: seq<T>, keep: T -> bool)
    ensures forall j :: 0 <= j < |s| ==> (keep(s[j]) <==> j in Positions(s, keep))
    decreases |s|
  {
    if s != [] {
      var t := s[1..];
      PositionsExact(t, keep);
      var idx' := Positions(t, keep);
      var sh := Shift(idx');
      var idx := Positions(s, keep);
      assert idx == (if keep(s[0]) then [0] else []) + sh;
      assert forall m :: 0 <= m < |sh| ==> sh[m] > 0;
      forall j | 0 < j < |s| ensures keep(s[j]) <==> j in idx {
        assert s[j] == t[j - 1];
        assert j in idx <==> j in sh;
        if j - 1 in idx' {
          var m :| 0 <= m < |idx'| && idx'[m] == j - 1;
          assert sh[m] == j;
        }
        if j in sh {
          var m :| 0 <= m < |sh| && sh[m] == j;
          assert idx'[m] == j - 1;
        }
      }
    }
  }

  /** Filtering distributes over concatenation. */
  lemma {:induction false} FilterAppend<T>(a: seq<T>, b: seq<T>, keep: T -> bool)
    ensures Filter(a + b, keep) == Filter(a, keep) + Filter(b, keep)
    decreases |a|
  {
    if a != [] {
      assert (a + b)[0] == a[0] && (a + b)[1..] == a[1..] + b;
      FilterAppend(a[1..], b, keep);
    } else {
      assert a + b == b;
    }
  }
}
