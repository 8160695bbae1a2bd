# Eisenhower-matrix task ranking, modelled in Dafny

This project models the decision logic of the `/rank-tasks` endpoint in
`backend/main.py`. The endpoint takes a list of tasks. Each task has an
`id`, a `text`, an `urgency` and an `importance` (both default 5) and a
`quadrant` (default `""`, meaning unclassified). The endpoint asks a
language-model classifier for scores. It then reconciles the classifier's
JSON records with the tasks, matching on the lower-cased, stripped text.
When the classifier returns nothing (`None`) or an empty list, every task
gets a quadrant from the rule-based `determine_quadrant`. A non-empty reply
whose records match no task leaves every task as it came in.

Modules:

- `Wrappers` (`wrappers.dfy`): `Option`, used for JSON keys that may be absent.
- `Quadrants` (`quadrants.dfy`): `determine_quadrant` with the threshold 5 and
  the four labels "Do Now", "Schedule", "Delegate" and "Eliminate".
- `TextNorm` (`text_norm.dfy`): the matching key `text.lower().strip()` on ASCII.
- `Reconcile` (`reconcile.dfy`): `Task`, the classifier `Record`, and the reply as
  `Option<seq<Record>>` (`None` when the gateway failed). It also holds the
  response (`Ok(tasks)` or `ServerError(500, detail)`), the two loops of the
  handler as reference functions (`FallbackAll`, `ScanRecords`, `ReconcileAll`,
  `RankTasks`), an independent "last match wins" description (`LastMatch`,
  `Reconciled`), and the lemmas about them.
- `RankHandler` (`rank_handler.dfy`): the handler body as imperative code. The
  task list is an `array<Task>`, updated in place by nested `while` loops, one
  field assignment at a time as the source does. Each method is proved equal
  to the reference functions.

Behaviour worth noting:

- The threshold is the literal 5, so a score of exactly 5 counts as high.
- The inner loop has no `break`, so when several records match a task, the last
  one wins. `ScanIsLastMatch` proves this.
- On the success path, a task with no matching record gets no fallback quadrant.
  It keeps its incoming quadrant, which may be `""`. So "every returned task
  has one of the four labels" holds only on the fallback path (`RankFallback`).
  On the success path it fails (`UnmatchedStaysUnclassified`).
- Replies are not validated. A record missing `urgency` or `importance` gets 5.
  A record missing `quadrant` gets the rule's label of the newly assigned
  scores. Values are copied with no 1–10 range check.
- A record missing `text` raises `KeyError` while the first task is scanned,
  because every task scans every record. The request then fails with HTTP 500
  and detail `'text'`. When the task list is empty nothing is scanned, and the
  response is an empty list (`RankError`).

## Model

| member | source | states |
|---|---|---|
| Quadrants.DetermineQuadrant | backend/main.py:41-49 | total; always one of the four labels, never `""`; equal to the matrix cell picked by the two "score ≥ 5" verdicts |
| Quadrants.QuadrantRegions | backend/main.py:41-49 | "Do Now" iff u≥5∧i≥5, "Schedule" iff u<5∧i≥5, "Delegate" iff u≥5∧i<5, "Eliminate" iff u<5∧i<5 |
| Quadrants.QuadrantBoundaries | backend/main.py:42-49 | (5,5)→"Do Now", (4,5)→"Schedule", (5,4)→"Delegate", (4,4)→"Eliminate" |
| Quadrants.QuadrantDependsOnlyOnSides | backend/main.py:41-49 | scores on the same side of the threshold on both axes get the same label |
| TextNorm.LowerSpec | backend/main.py:104 | `lower()` leaves no upper-case letter, keeps every other character, and maps each upper-case letter to its lower-case one |
| TextNorm.LeadingSpaceSpec | backend/main.py:104 | counts exactly the whitespace run at the front |
| TextNorm.TrailingSpaceSpec | backend/main.py:104 | counts exactly the whitespace run at the back |
| TextNorm.StripSpec | backend/main.py:104 | `strip()` yields a contiguous slice that keeps every non-whitespace character and has no whitespace at either end |
| TextNorm.NormalizeSpec | backend/main.py:104 | the matching key has no upper-case letter and no surrounding whitespace |
| TextNorm.NormalizeIdempotent | backend/main.py:104 | normalising twice equals normalising once |
| TextNorm.NormalizeExample | backend/main.py:104 | "  Buy milk " and "buy milk" have the same key |
| Reconcile.NewTask | backend/main.py:33-38 | a task given only `id` and `text` has urgency 5, importance 5 and quadrant `""` |
| Reconcile.Fallback | backend/main.py:110-111 | the fallback changes only the quadrant, which becomes one of the four labels |
| Reconcile.FallbackAll | backend/main.py:108-111 | the fallback loop keeps length and order and applies the fallback to each task |
| Reconcile.FallbackOfNewTask | backend/main.py:33-49 | a task with default scores falls back to "Do Now" |
| Reconcile.Overwrite | backend/main.py:105-107 | on a match, scores are copied verbatim or default to 5, and the quadrant is copied verbatim or defaults to the rule's label of the new scores; `id` and `text` are kept |
| Reconcile.Truthy | backend/main.py:101 | the only replies that take the fallback branch are `None` and the empty list |
| Reconcile.Matches | backend/main.py:104 | only a record with "text" can match, and a record that echoes the task's text verbatim always does |
| Reconcile.Step | backend/main.py:103-107 | one pass of the inner loop body keeps `id` and `text`; it stops, with the task untouched, exactly on a record without "text"; otherwise it overwrites the task on a match and leaves it as it is on a mismatch |
| Reconcile.ScanRecords | backend/main.py:103-107 | the inner loop keeps `id` and `text`, and fails exactly when some record lacks "text" |
| Reconcile.ReconcileAll | backend/main.py:101-107 | the outer loop keeps length, order, `id` and `text`; its only failure is the 500 with detail `'text'` |
| Reconcile.LastMatch | backend/main.py:102-107 | finds the last record whose key equals the task's key, or reports that none does |
| Reconcile.LastMatchAt | backend/main.py:102-107 | a matching record with no later match is the one `LastMatch` finds |
| Reconcile.OverwriteForgets | backend/main.py:105-107 | a later overwrite erases an earlier one completely |
| Reconcile.ReconciledStep | backend/main.py:103-107 | one more record with "text" moves the last-match description exactly as one pass of the inner loop body does |
| Reconcile.ScanIsLastMatch | backend/main.py:102-107 | when every record has "text", the inner loop leaves the task as overwritten by its last matching record, or unchanged when none matches |
| Reconcile.ScanStopsAtFailure | backend/main.py:103-104 | records after the one that raised `KeyError` are never looked at |
| Reconcile.RankTasks | backend/main.py:99-118 | a successful response keeps length, order, `id` and `text`; the only error is the 500 with detail `'text'`, and it needs a non-empty reply and a non-empty task list (further properties: RankKeepsTasks, RankFallback, RankError, RankMatched, RankUnmatched) |
| Reconcile.RankKeepsTasks | backend/main.py:101-114 | on success the response has the same length and order as the request, with the same `id` and `text` at every index, whatever the reply |
| Reconcile.RankFallback | backend/main.py:101-111 | with a missing or empty reply the request succeeds; every task keeps its scores and gets the rule's label of them |
| Reconcile.ReconcileAllFails | backend/main.py:102-104 | reconciliation fails iff the task list is non-empty and some record lacks "text" |
| Reconcile.RankError | backend/main.py:99-118 | the response is a server error iff the reply is non-empty, the task list is non-empty and some record lacks "text"; it is then exactly a 500 with detail `'text'`, never a partial list |
| Reconcile.ReconcileAllPointwise | backend/main.py:102-107 | when every record has "text", each task is reconciled independently of the others |
| Reconcile.RankMatched | backend/main.py:102-107 | a matched task takes its fields from the last matching record, with the defaults for absent keys |
| Reconcile.RankUnmatched | backend/main.py:101-107 | on the success path an unmatched task is returned unchanged, with no fallback quadrant |
| Reconcile.UnmatchedStaysUnclassified | backend/main.py:99-114 | for "Pay rent" and "Watch TV" with a reply naming only "Pay rent", the first becomes (9, 9, "Do Now") and the second keeps quadrant `""` |
| RankHandler.ScanInPlace | backend/main.py:103-107 | the in-place inner loop leaves the task equal to `ScanRecords` of its old value and touches no other task |
| RankHandler.ReconcileInPlace | backend/main.py:101-107 | the in-place outer loop produces `ReconcileAll` of the old list and returns the array's own contents; on error only the first task can have changed |
| RankHandler.FallbackInPlace | backend/main.py:108-111 | the in-place fallback loop leaves the array equal to `FallbackAll` of its old contents |
| RankHandler.RankTasksInPlace | backend/main.py:95-118 | the handler's response equals `RankTasks` of the old list and the reply; on success it is the updated list itself |

## Left out

- The classifier call in `ai_rank_tasks` is left out (backend/main.py:52-91). It is a network client: prompt construction, `openai.ChatCompletion.create` and reading the reply. Only its result is modelled, as the `Reply` parameter. `None` stands for any error it catches.
- `json.loads` (backend/main.py:81) is left out; its result is taken to be a sequence of records. A falsy non-list result (`0`, `""`, `{}`) behaves like `None`. A truthy non-list result, or an element that is not an object, fails on the first element that is iterated. That gives the same response as a one-record reply whose record lacks "text". Only the error detail differs, and the model always uses `'text'`.
- JSON `null` or non-integer scores, and a non-string `text` or `quadrant`, are not modelled. Record fields are either absent or of the declared type. In the source, line 107 always evaluates the default `determine_quadrant(task.urgency, task.importance)`, even when "quadrant" is present. So a `null` or string score on a matching record raises `TypeError` there, and the response is a 500. A float score is copied without error. A non-string `text` also ends in a 500, with a different detail.
- `str.lower()` and `str.strip()` are modelled on ASCII only: upper-case A–Z, and the whitespace characters 9–13 and 28–32. Unicode case mapping and Unicode whitespace are not modelled.
- FastAPI setup, CORS, environment and API-key loading, and the uvicorn start-up are left out (backend/main.py:10-30, 120-124). They are framework and process plumbing.
- `print` logging is left out; it is a side effect only.
- `app/EisenhowerMatrix.tsx` is not part of this model. It is a React user interface whose only logic is two one-line filters on UI state.
- Tasks are modelled as values in an array, not as shared objects. The framework builds a fresh `Task` object for each element of the request, so one object cannot sit at two positions of the list.
