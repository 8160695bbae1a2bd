/** The body of the `/rank-tasks` handler, run in place on the request's
    task list. */
module RankHandler {
  import opened Wrappers
  import opened Quadrants
  import opened TextNorm
  import opened Reconcile

  /** The inner loop for task `a[i]`: compares it with every record in
      order and overwrites its scores and quadrant on each match. Returns
      false when it meets a record without "text" (the KeyError), leaving
      the task as it was at that point. No other task is touched. */
  method ScanInPlace(a: array<Task>, i: nat, rs: seq<Record>) returns (ok: bool)
    requires i < a.Length
    modifies a
    ensures ScanRecords(old(a[i]), rs) == (if ok then Finished(a[i]) else Failed(a[i]))
    ensures forall k :: 0 <= k < a.Length && k != i ==> a[k] == old(a[k])
  {
    var j := 0;
    while j < |rs|
      invariant 0 <= j <= |rs|
      invariant ScanRecords(old(a[i]), rs[..j]) == Finished(a[i])
      invariant forall k :: 0 <= k < a.Length && k != i ==> a[k] == old(a[k])
    {
      var record := rs[j];
      ScanExtend(old(a[i]), rs, j, a[i]);
      ghost var next := Step(a[i], record);
      if record.text.None? {
        ScanStopsAtFailure(old(a[i]), rs, j + 1);
        return false;
      }
      if Normalize(a[i].text) == Normalize(record.text.value) {
        assert Matches(a[i], record);
        a[i] := a[i].(urgency := record.urgency.GetOr(DefaultScore));
        a[i] := a[i].(importance := record.importance.GetOr(DefaultScore));
        a[i] := a[i].(quadrant := record.quadrant.GetOr(DetermineQuadrant(a[i].urgency, a[i].importance)));
      } else {
        assert !Matches(a[i], record);
      }
      assert next == Finished(a[i]);
      j := j + 1;
    }
    assert rs[..j] == rs;
    return true;
  }

  /** The success branch: every task scanned against the records, in list
      order; the first KeyError ends the request with the server error. */
  method ReconcileInPlace(a: array<Task>, rs: seq<Record>) returns (resp: Response)
    modifies a
    ensures resp == ReconcileAll(old(a[..]), rs)
    ensures resp.Ok? ==> resp.tasks == a[..]
    ensures resp.ServerError? ==>
      a.Length > 0 && a[1..] == old(a[1..]) && a[0] == ScanRecords(old(a[0]), rs).task
  {
    ghost var tasks := a[..];
    var i := 0;
    while i < a.Length
      invariant 0 <= i <= a.Length
      invariant ReconcileAll(tasks[..i], rs) == Ok(a[..i])
      invariant forall k :: i <= k < a.Length ==> a[k] == tasks[k]
      invariant i > 0 ==> AllHaveText(rs)
    {
      ghost var done := a[..i];
      var ok := ScanInPlace(a, i, rs);
      if !ok {
        ReconcileAllFails(tasks, rs);
        assert i == 0;
        assert a[1..] == tasks[1..];
        return ServerError(InternalServerError, MissingTextDetail);
      }
      assert a[..i] == done;
      ReconcileAllExtend(tasks, rs, i, done, a[i]);
      assert a[..i + 1] == done + [a[i]];
      i := i + 1;
    }
    assert tasks[..i] == tasks;
    return Ok(a[..]);
  }

  /** The fallback branch: every task gets the rule's quadrant of its own
      scores. */
  method FallbackInPlace(a: array<Task>)
    modifies a
    ensures a[..] == FallbackAll(old(a[..]))
  {
    var i := 0;
    while i < a.Length
      invariant 0 <= i <= a.Length
      invariant forall k :: 0 <= k < i ==> a[k] == Fallback(old(a[k]))
      invariant forall k :: i <= k < a.Length ==> a[k] == old(a[k])
    {
      a[i] := a[i].(quadrant := DetermineQuadrant(a[i].urgency, a[i].importance));
      i := i + 1;
    }
  }

  /** `rank_tasks`: branches on the truthiness of the reply and returns the
      request's own list, now updated, or the server error. On error only
      the first task can have been touched. */
  method RankTasksInPlace(a: array<Task>, reply: Reply) returns (resp: Response)
    modifies a
    ensures resp == RankTasks(old(a[..]), reply)
    ensures resp.Ok? ==> resp.tasks == a[..]
    ensures resp.ServerError? ==>
      a.Length > 0 && a[1..] == old(a[1..]) &&
      a[0] == ScanRecords(old(a[0]), reply.value).task
  {
    if reply.Some? && |reply.value| > 0 {
      resp := ReconcileInPlace(a, reply.value);
    } else {
      FallbackInPlace(a);
      resp := Ok(a[..]);
    }
  }
}
