/** What the `/rank-tasks` handler computes, as functions: the task record,
    the classifier's reply, the two loops of the handler, and the response. */
module Reconcile {
  import opened Wrappers
  import opened Quadrants
  import opened TextNorm

  /** Score a task or a record gets when none is given. */
  const DefaultScore: int := 5

  /** The handler's error response: status and detail. */
  const InternalServerError: int := 500
  /** `str(KeyError('text'))`, the message of a record without "text". */
  const MissingTextDetail: string := "'text'"

  /** A task of the request; `quadrant == ""` means "unclassified". */
  datatype Task = Task(id: string, text: string, urgency: int, importance: int, quadrant: string)

  /** One object of the classifier's JSON array; a field is `None` when its
      key is absent. */
  datatype Record = Record(text: Option<string>, urgency: Option<int>, importance: Option<int>, quadrant: Option<string>)

  /** The classifier's reply: `None` when the gateway failed. */
  type Reply = Option<seq<Record>>

  datatype Response = Ok(tasks: seq<Task>) | ServerError(status: int, detail: string)

  /** A task as built from a request object that gives only `id` and `text`. */
  function NewTask(id: string, text: string): (t: Task)
    ensures t.id == id && t.text == text
    ensures t.urgency == DefaultScore && t.importance == DefaultScore && t.quadrant == ""
  {
    Task(id, text, DefaultScore, DefaultScore, "")
  }

  /** Python truthiness of the reply: the only falsy replies are `None`
      and the empty list. */
  predicate Truthy(reply: Reply)
    ensures !Truthy(reply) <==> reply == None || reply == Some([])
  {
    reply.Some? && reply.value != []
  }

  /** The fallback of one task: it gets the rule-based quadrant of its own
      scores; nothing else changes. */
  function Fallback(t: Task): (r: Task)
    ensures r.id == t.id && r.text == t.text
    ensures r.urgency == t.urgency && r.importance == t.importance
    ensures IsLabel(r.quadrant)
  {
    t.(quadrant := DetermineQuadrant(t.urgency, t.importance))
  }

  /** The fallback loop over the whole list. */
  function FallbackAll(tasks: seq<Task>): (r: seq<Task>)
    ensures |r| == |tasks|
    ensures forall k :: 0 <= k < |r| ==> r[k] == Fallback(tasks[k])
  {
    seq(|tasks|, k requires 0 <= k < |tasks| => Fallback(tasks[k]))
  }

  /** A record matches a task when both texts have the same key. Only a
      record with "text" can match, and one that echoes the task's text
      verbatim always does. */
  predicate Matches(t: Task, r: Record)
    ensures Matches(t, r) ==> r.text.Some?
    ensures r.text == Some(t.text) ==> Matches(t, r)
  {
    r.text.Some? && Normalize(t.text) == Normalize(r.text.value)
  }

  /** The three assignments applied on a match: scores copied verbatim or 5
      when absent, and the quadrant copied verbatim or, when absent, the
      rule's label of the scores just assigned. */
  function Overwrite(t: Task, r: Record): (u: Task)
    ensures u.id == t.id && u.text == t.text
    ensures u.urgency == (if r.urgency.Some? then r.urgency.value else DefaultScore)
    ensures u.importance == (if r.importance.Some? then r.importance.value else DefaultScore)
    ensures r.quadrant.Some? ==> u.quadrant == r.quadrant.value
    ensures r.quadrant.None? ==> u.quadrant == DetermineQuadrant(u.urgency, u.importance)
  {
    var u1 := t.(urgency := r.urgency.GetOr(DefaultScore));
    var u2 := u1.(importance := r.importance.GetOr(DefaultScore));
    u2.(quadrant := r.quadrant.GetOr(DetermineQuadrant(u2.urgency, u2.importance)))
  }

  /** State of one task after scanning some records: still going, or stopped
      by a record without "text" (the task as it was at that moment). */
  datatype Scan = Finished(task: Task) | Failed(task: Task)

  /** One pass of the inner loop body: a record without "text" stops the
      scan with the task untouched; otherwise the task is overwritten when
      the record matches and kept as it is when not. */
  function Step(t: Task, r: Record): (s: Scan)
    ensures s.task.id == t.id && s.task.text == t.text
    ensures s.Failed? <==> r.text.None?
    ensures s.Failed? ==> s.task == t
    ensures s.Finished? && Matches(t, r) ==> s.task == Overwrite(t, r)
    ensures !Matches(t, r) ==> s.task == t
  {
    if r.text.None? then Failed(t)
    else if Matches(t, r) then Finished(Overwrite(t, r))
    else Finished(t)
  }

  /** The inner loop for one task: the records in order, stopping at the
      first without "text". The task keeps its identity and the scan fails
      exactly when some record lacks "text". */
  function ScanRecords(t: Task, rs: seq<Record>): (s: Scan)
    ensures s.task.id == t.id && s.task.text == t.text
    ensures s.Failed? <==> exists k :: 0 <= k < |rs| && rs[k].text.None?
    decreases |rs|
  {
    if rs == [] then Finished(t)
    else
      var prefix := rs[..|rs| - 1];
      assert forall k :: 0 <= k < |prefix| ==> prefix[k] == rs[k];
      match ScanRecords(t, prefix)
      case Failed(x) =>
        assert exists k :: 0 <= k < |prefix| && prefix[k].text.None?;
        Failed(x)
      case Finished(x) =>
        Step(x, rs[|rs| - 1])
  }

  /** The outer loop: every task scanned in order; the first failure ends
      the request with the server error. */
  function ReconcileAll(tasks: seq<Task>, rs: seq<Record>): (resp: Response)
    ensures resp.Ok? ==> |resp.tasks| == |tasks|
    ensures resp.Ok? ==> forall k :: 0 <= k < |tasks| ==>
      resp.tasks[k].id == tasks[k].id && resp.tasks[k].text == tasks[k].text
    ensures resp.ServerError? ==> resp == ServerError(InternalServerError, MissingTextDetail)
    decreases |tasks|
  {
    if tasks == [] then Ok([])
    else
      match ReconcileAll(tasks[..|tasks| - 1], rs)
      case ServerError(st, d) => ServerError(st, d)
      case Ok(done) =>
        match ScanRecords(tasks[|tasks| - 1], rs)
        case Failed(_) => ServerError(InternalServerError, MissingTextDetail)
        case Finished(x) => Ok(done + [x])
  }

  /** Scanning one more task extends a successful response by that task. */
  lemma ReconcileAllExtend(tasks: seq<Task>, rs: seq<Record>, i: nat, done: seq<Task>, x: Task)
    requires i < |tasks|
    requires ReconcileAll(tasks[..i], rs) == Ok(done)
    requires ScanRecords(tasks[i], rs) == Finished(x)
    ensures ReconcileAll(tasks[..i + 1], rs) == Ok(done + [x])
  {
    assert tasks[..i + 1][..i] == tasks[..i];
  }

  /** The handler's response for a task list and a classifier reply. A
      successful response holds the same tasks in the same order; the only
      error is the 500 of a record without "text", which needs a non-empty
      reply and a non-empty task list. */
  function RankTasks(tasks: seq<Task>, reply: Reply): (resp: Response)
    ensures resp.Ok? ==> |resp.tasks| == |tasks|
    ensures resp.Ok? ==> forall k :: 0 <= k < |tasks| ==>
      resp.tasks[k].id == tasks[k].id && resp.tasks[k].text == tasks[k].text
    ensures resp.ServerError? ==>
      resp == ServerError(InternalServerError, MissingTextDetail) && Truthy(reply) && tasks != []
  {
    if Truthy(reply) then ReconcileAll(tasks, reply.value)
    else Ok(FallbackAll(tasks))
  }

  // ---------------------------------------------------------------------
  // An independent description of the outcome for one task

  /** The index of the last record that matches `t`, if any. */
  function LastMatch(t: Task, rs: seq<Record>): (m: Option<nat>)
    ensures m.Some? ==> m.value < |rs| && Matches(t, rs[m.value])
    ensures m.Some? ==> forall k :: m.value < k < |rs| ==> !Matches(t, rs[k])
    ensures m.None? ==> forall k :: 0 <= k < |rs| ==> !Matches(t, rs[k])
    decreases |rs|
  {
    if rs == [] then None
    else if Matches(t, rs[|rs| - 1]) then Some(|rs| - 1)
    else
      var prefix := rs[..|rs| - 1];
      assert forall k :: 0 <= k < |prefix| ==> prefix[k] == rs[k];
      LastMatch(t, prefix)
  }

  /** What a task should become: overwritten from its last matching
      record, or left exactly as it was when no record matches. */
  function Reconciled(t: Task, rs: seq<Record>): Task {
    match LastMatch(t, rs)
    case Some(k) => Overwrite(t, rs[k])
    case None => t
  }

  /** A matching record with no matching record after it is the last match. */
  lemma LastMatchAt(t: Task, rs: seq<Record>, m: nat)
    requires m < |rs| && Matches(t, rs[m])
    requires forall j :: m < j < |rs| ==> !Matches(t, rs[j])
    ensures LastMatch(t, rs) == Some(m)
  {
  }

  /** Once a scan has stopped on a record without "text", the records after
      it are never looked at. */
  lemma {:induction false} ScanStopsAtFailure(t: Task, rs: seq<Record>, j: nat)
    requires j <= |rs| && ScanRecords(t, rs[..j]).Failed?
    ensures ScanRecords(t, rs) == ScanRecords(t, rs[..j])
    decreases |rs| - j
  {
    if j < |rs| {
      assert rs[..j + 1][..j] == rs[..j];
      ScanStopsAtFailure(t, rs, j + 1);
    } else {
      assert rs[..j] == rs;
    }
  }

  /** Scanning one more record is one more pass of the inner loop body. */
  lemma ScanExtend(t: Task, rs: seq<Record>, j: nat, x: Task)
    requires j < |rs| && ScanRecords(t, rs[..j]) == Finished(x)
    ensures ScanRecords(t, rs[..j + 1]) == Step(x, rs[j])
  {
    assert rs[..j + 1][..j] == rs[..j];
  }

  /** Every record has a "text" key. */
  predicate AllHaveText(rs: seq<Record>) {
    forall k :: 0 <= k < |rs| ==> rs[k].text.Some?
  }

  /** Overwriting only reads the identity of the task, so a later match
      erases an earlier one. */
  lemma OverwriteForgets(t: Task, r1: Record, r2: Record)
    ensures Overwrite(Overwrite(t, r1), r2) == Overwrite(t, r2)
  {
  }

  /** One more record, with "text", moves the independent description
      exactly as one pass of the inner loop body does. */
  lemma ReconciledStep(t: Task, rs: seq<Record>, r: Record)
    requires r.text.Some?
    ensures Step(Reconciled(t, rs), r) == Finished(Reconciled(t, rs + [r]))
  {
    var x := Reconciled(t, rs);
    var rs' := rs + [r];
    assert rs'[..|rs'| - 1] == rs;
    assert x.text == t.text;
    if Matches(t, r) {
      assert LastMatch(t, rs') == Some(|rs|);
      match LastMatch(t, rs)
      case Some(k) => OverwriteForgets(t, rs[k], r);
      case None =>
    } else {
      assert LastMatch(t, rs') == LastMatch(t, rs);
    }
  }

  /** Last match wins: when every record has "text", scanning the records
      in order gives the task of the independent description. */
  lemma {:induction false} ScanIsLastMatch(t: Task, rs: seq<Record>)
    requires AllHaveText(rs)
    ensures ScanRecords(t, rs) == Finished(Reconciled(t, rs))
    decreases |rs|
  {
    if rs != [] {
      var prefix := rs[..|rs| - 1];
      var last := rs[|rs| - 1];
      assert prefix + [last] == rs;
      assert AllHaveText(prefix) by {
        assert forall k :: 0 <= k < |prefix| ==> prefix[k] == rs[k];
      }
      ScanIsLastMatch(t, prefix);
      ReconciledStep(t, prefix, last);
    }
  }

  // ---------------------------------------------------------------------
  // Properties of the whole response

  /** The response keeps the list: same length, same order, same `id` and
      `text` at every index, whatever the classifier replied. */
  lemma RankKeepsTasks(tasks: seq<Task>, reply: Reply)
    requires RankTasks(tasks, reply).Ok?
    ensures |RankTasks(tasks, reply).tasks| == |tasks|
    ensures forall k :: 0 <= k < |tasks| ==>
      RankTasks(tasks, reply).tasks[k].id == tasks[k].id &&
      RankTasks(tasks, reply).tasks[k].text == tasks[k].text
  {
  }

  /** Fallback path: with no reply or an empty one every task gets the
      rule's label of its own unchanged scores, and the request succeeds. */
  lemma RankFallback(tasks: seq<Task>, reply: Reply)
    requires !Truthy(reply)
    ensures RankTasks(tasks, reply).Ok?
    ensures forall k :: 0 <= k < |tasks| ==>
      RankTasks(tasks, reply).tasks[k] ==
        tasks[k].(quadrant := DetermineQuadrant(tasks[k].urgency, tasks[k].importance))
    ensures forall k :: 0 <= k < |tasks| ==> IsLabel(RankTasks(tasks, reply).tasks[k].quadrant)
  {
  }

  /** The failure of one scan spreads to the whole list. */
  lemma {:induction false} ReconcileAllFails(tasks: seq<Task>, rs: seq<Record>)
    ensures ReconcileAll(tasks, rs).ServerError? <==> tasks != [] && !AllHaveText(rs)
    decreases |tasks|
  {
    if tasks != [] {
      ReconcileAllFails(tasks[..|tasks| - 1], rs);
    }
  }

  /** The error outcome: a 500 carrying the KeyError message exactly when
      the reply is non-empty, the task list is non-empty and some record
      lacks "text". There is no partial response. */
  lemma RankError(tasks: seq<Task>, reply: Reply)
    ensures RankTasks(tasks, reply).ServerError? <==>
      Truthy(reply) && tasks != [] && !AllHaveText(reply.value)
    ensures RankTasks(tasks, reply).ServerError? ==>
      RankTasks(tasks, reply) == ServerError(InternalServerError, MissingTextDetail)
  {
    if Truthy(reply) {
      ReconcileAllFails(tasks, reply.value);
    }
  }

  /** On success every task is scanned on its own against all records. */
  lemma {:induction false} ReconcileAllPointwise(tasks: seq<Task>, rs: seq<Record>)
    requires AllHaveText(rs)
    ensures ReconcileAll(tasks, rs).Ok?
    ensures forall k :: 0 <= k < |tasks| ==> ReconcileAll(tasks, rs).tasks[k] == Reconciled(tasks[k], rs)
    decreases |tasks|
  {
    if tasks != [] {
      var prefix := tasks[..|tasks| - 1];
      ReconcileAllPointwise(prefix, rs);
      ScanIsLastMatch(tasks[|tasks| - 1], rs);
      var out := ReconcileAll(tasks, rs).tasks;
      forall k | 0 <= k < |tasks|
        ensures out[k] == Reconciled(tasks[k], rs)
      {
        if k < |prefix| {
          assert prefix[k] == tasks[k];
        }
      }
    }
  }

  /** Success path, a task with a match: its scores and quadrant come from
      the last matching record, with 5 for an absent score and the rule's
      label of the new scores for an absent quadrant. */
  lemma RankMatched(tasks: seq<Task>, reply: Reply, k: nat, m: nat)
    requires Truthy(reply) && AllHaveText(reply.value)
    requires k < |tasks| && m < |reply.value|
    requires Matches(tasks[k], reply.value[m])
    requires forall j :: m < j < |reply.value| ==> !Matches(tasks[k], reply.value[j])
    ensures RankTasks(tasks, reply).Ok?
    ensures RankTasks(tasks, reply).tasks[k] == Overwrite(tasks[k], reply.value[m])
  {
    ReconcileAllPointwise(tasks, reply.value);
    LastMatchAt(tasks[k], reply.value, m);
  }

  /** Success path, a task without a match: it is returned exactly as it
      came in, with no fallback quadrant. */
  lemma RankUnmatched(tasks: seq<Task>, reply: Reply, k: nat)
    requires Truthy(reply) && AllHaveText(reply.value)
    requires k < |tasks|
    requires forall j :: 0 <= j < |reply.value| ==> !Matches(tasks[k], reply.value[j])
    ensures RankTasks(tasks, reply).Ok?
    ensures RankTasks(tasks, reply).tasks[k] == tasks[k]
  {
    ReconcileAllPointwise(tasks, reply.value);
  }

  /** A task that arrives without scores falls back to "Do Now", since the
      default score 5 is at the threshold on both axes. */
  lemma FallbackOfNewTask(id: string, text: string)
    ensures Fallback(NewTask(id, text)) == Task(id, text, 5, 5, DoNow)
  {
  }

  /** Two tasks with default scores, the reply naming only the first:
      the first takes the record's values, the second stays unclassified. */
  lemma UnmatchedStaysUnclassified()
    ensures var tasks := [NewTask("1", "Pay rent"), NewTask("2", "Watch TV")];
            var reply := Some([Record(Some("Pay rent"), Some(9), Some(9), Some(DoNow))]);
            RankTasks(tasks, reply) == Ok([Task("1", "Pay rent", 9, 9, DoNow), NewTask("2", "Watch TV")])
  {
    var tasks := [NewTask("1", "Pay rent"), NewTask("2", "Watch TV")];
    var r := Record(Some("Pay rent"), Some(9), Some(9), Some(DoNow));
    assert Matches(tasks[0], r);
    assert Normalize("Watch TV") != Normalize("Pay rent") by {
      assert Lower("Watch TV")[0] == 'w' && Lower("Pay rent")[0] == 'p';
      assert LeadingSpace(Lower("Watch TV")) == 0 && LeadingSpace(Lower("Pay rent")) == 0;
    }
    assert !Matches(tasks[1], r);
    RankMatched(tasks, Some([r]), 0, 0);
    RankUnmatched(tasks, Some([r]), 1);
    RankKeepsTasks(tasks, Some([r]));
  }
}
