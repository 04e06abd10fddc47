/** The solver fallback policy of `Scheduler` and `solve`.

    Each solver is opaque: what matters is how its attempt ended. A task
    either returned a flag and a point, ran into the time limit (the timeout
    wrapper then yields `None`), or raised `ValueError` (which `call` turns
    into `None` as well).
 */
module Lp {
  import opened Results

  datatype Attempt = Returned(success: bool, point: seq<real>) | TimedOut | ValueErrorRaised

  /** The outcome of `call`: the flag (`None` when no task answered), the
      point, and how many tasks were run. */
  datatype Outcome = Outcome(flag: Option<bool>, point: seq<real>, ran: nat)

  /** `schedule`: the task goes last. */
  function Schedule(tasks: seq<Attempt>, task: Attempt): (r: seq<Attempt>)
    ensures |r| == |tasks| + 1 && r[..|tasks|] == tasks && r[|tasks|] == task
  {
    tasks + [task]
  }

  predicate Succeeds(a: Attempt) {
    a.Returned? && a.success
  }

  predicate Fails(a: Attempt) {
    a.Returned? && !a.success
  }

  /** `call`, from task `i` on, having seen a `False` answer iff `sawFalse`. */
  function CallFrom(tasks: seq<Attempt>, i: nat, sawFalse: bool): (r: Outcome)
    requires i <= |tasks|
    ensures i <= r.ran <= |tasks|
    decreases |tasks| - i
  {
    if i == |tasks| then Outcome(if sawFalse then Some(false) else None, [], |tasks|)
    else if Succeeds(tasks[i]) then Outcome(Some(true), tasks[i].point, i + 1)
    else CallFrom(tasks, i + 1, sawFalse || Fails(tasks[i]))
  }

  function Call(tasks: seq<Attempt>): (r: Outcome)
    ensures r.flag == Some(true) <==> exists k :: 0 <= k < |tasks| && Succeeds(tasks[k])
    ensures r.ran <= |tasks|
    ensures r.flag == Some(true) ==> 0 < r.ran && Succeeds(tasks[r.ran - 1]) && r.point == tasks[r.ran - 1].point
    ensures r.flag != Some(true) ==> r.ran == |tasks| && r.point == []
  {
    CallFromSpec(tasks, 0, false);
    CallFrom(tasks, 0, false)
  }

  /** `solve`: interior point first, then the revised simplex; no answer
      from either raises `SolverError`. */
  function Solve(interiorPoint: Attempt, simplex: Attempt): (r: Result<(bool, seq<real>)>)
    ensures r.Err? <==> !interiorPoint.Returned? && !simplex.Returned?
    ensures r.Ok? ==> (r.value.0 <==> Succeeds(interiorPoint) || Succeeds(simplex))
  {
    var tasks := Schedule(Schedule([], interiorPoint), simplex);
    assert tasks == [interiorPoint, simplex];
    CallSpec(tasks);
    var out := Call(tasks);
    assert (exists k :: 0 <= k < |tasks| && Succeeds(tasks[k])) <==> Succeeds(interiorPoint) || Succeeds(simplex) by {
      if Succeeds(interiorPoint) {
        assert Succeeds(tasks[0]);
      }
      if Succeeds(simplex) {
        assert Succeeds(tasks[1]);
      }
    }
    assert (forall k :: 0 <= k < |tasks| ==> !tasks[k].Returned?) <==> !interiorPoint.Returned? && !simplex.Returned? by {
      assert tasks[0] == interiorPoint && tasks[1] == simplex;
    }
    if out.flag.None? then Err("SolverError: all solvers failed") else Ok((out.flag.value, out.point))
  }

  /* ------------------------------------------------------------ properties */

  /** The index of the first successful task, if any. */
  function FirstSuccess(tasks: seq<Attempt>): (r: Option<nat>)
    ensures r.Some? ==> (r.value < |tasks| && Succeeds(tasks[r.value])
      && forall k :: 0 <= k < r.value ==> !Succeeds(tasks[k]))
    ensures r.None? ==> forall k :: 0 <= k < |tasks| ==> !Succeeds(tasks[k])
  {
    if tasks == [] then None
    else if Succeeds(tasks[0]) then Some(0)
    else
      var rest := FirstSuccess(tasks[1..]);
      if rest.None? then None else Some(rest.value + 1)
  }

  lemma {:induction false} CallFromSpec(tasks: seq<Attempt>, i: nat, sawFalse: bool)
    requires i <= |tasks|
    requires forall k :: 0 <= k < i ==> !Succeeds(tasks[k])
    requires sawFalse <==> exists k :: 0 <= k < i && Fails(tasks[k])
    ensures var r := CallFrom(tasks, i, sawFalse);
      match FirstSuccess(tasks)
      case Some(k) => r == Outcome(Some(true), tasks[k].point, k + 1)
      case None =>
        r.ran == |tasks| && r.point == []
        && (r.flag == Some(false) <==> exists k :: 0 <= k < |tasks| && Fails(tasks[k]))
        && (r.flag == None <==> forall k :: 0 <= k < |tasks| ==> !tasks[k].Returned?)
    decreases |tasks| - i
  {
    if i < |tasks| && !Succeeds(tasks[i]) {
      var saw := sawFalse || Fails(tasks[i]);
      assert saw <==> exists k :: 0 <= k < i + 1 && Fails(tasks[k]) by {
        if Fails(tasks[i]) {
          assert 0 <= i < i + 1 && Fails(tasks[i]);
        }
      }
      CallFromSpec(tasks, i + 1, saw);
    } else if i < |tasks| {
      assert FirstSuccess(tasks) == Some(i);
    } else {
      assert FirstSuccess(tasks).None?;
    }
  }

  /** `call` returns the first success and runs nothing after it; without
      a success it runs every task and answers `False` iff some task
      answered `False`, `None` iff no task answered at all. */
  lemma CallSpec(tasks: seq<Attempt>)
    ensures var r := Call(tasks);
      match FirstSuccess(tasks)
      case Some(k) => r == Outcome(Some(true), tasks[k].point, k + 1)
      case None =>
        r.ran == |tasks| && r.point == []
        && (r.flag == Some(false) <==> exists k :: 0 <= k < |tasks| && Fails(tasks[k]))
        && (r.flag == None <==> forall k :: 0 <= k < |tasks| ==> !tasks[k].Returned?)
  {
    CallFromSpec(tasks, 0, false);
  }

  /** Scheduling one more task changes nothing once a scheduled task
      succeeds: the new task is never run. */
  lemma ScheduleAfterSuccess(tasks: seq<Attempt>, task: Attempt)
    requires exists k :: 0 <= k < |tasks| && Succeeds(tasks[k])
    ensures Call(Schedule(tasks, task)) == Call(tasks)
  {
    var more := Schedule(tasks, task);
    CallSpec(tasks);
    CallSpec(more);
    var k := FirstSuccess(tasks).value;
    assert more[k] == tasks[k];
    assert forall j :: 0 <= j < k ==> more[j] == tasks[j];
    assert FirstSuccess(more) == Some(k);
  }

  /** A `False` answer never hides a later success: whatever the earlier
      tasks answered short of success, a success among the later ones wins. */
  lemma CallLaterSuccess(first: seq<Attempt>, later: seq<Attempt>)
    requires forall k :: 0 <= k < |first| ==> !Succeeds(first[k])
    requires exists k :: 0 <= k < |later| && Succeeds(later[k])
    ensures Call(first + later).flag == Some(true)
    ensures Call(first + later).ran > |first|
  {
    var all := first + later;
    CallSpec(all);
    var k :| 0 <= k < |later| && Succeeds(later[k]);
    assert Succeeds(all[|first| + k]);
    assert forall j :: 0 <= j < |first| ==> all[j] == first[j];
  }
}
