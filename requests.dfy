/** Rows of the `requests` table (server/index.js:79-94) and what the
    gateway computes on them without touching other tables: the expiry
    sweep, the list query, and the row update an execution produces. */
module Requests {
  import opened Common

  datatype Status = Pending | Running | Completed | Failed | Denied | Expired

  /** The text stored in the `status` column. */
  function StatusName(s: Status): (t: string)
    ensures t != ""
  {
    match s
    case Pending => "pending"
    case Running => "running"
    case Completed => "completed"
    case Failed => "failed"
    case Denied => "denied"
    case Expired => "expired"
  }

  lemma StatusNameInjective(s: Status, t: Status)
    ensures StatusName(s) == StatusName(t) ==> s == t
  {
    if StatusName(s) == StatusName(t) {
      assert StatusName(s)[0] == StatusName(t)[0];
      assert StatusName(s)[1] == StatusName(t)[1];
    }
  }

  predicate IsTerminal(s: Status) {
    s == Completed || s == Failed || s == Denied || s == Expired
  }

  /** The lifecycle: pending → running → completed | failed, pending → denied,
      pending → expired. `Advances(s, t)` holds when `t` is `s` or lies after it. */
  predicate Advances(s: Status, t: Status) {
    s == t || s == Pending || (s == Running && (t == Completed || t == Failed))
  }

  datatype Request = Request(
    id: string,
    command: string,
    reason: Option<string>,
    agent: Option<string>,
    priority: string,
    status: Status,
    exitCode: Option<int>,
    stdout: Option<string>,
    stderr: Option<string>,
    createdAt: int,
    expiresAt: int,
    approvedAt: Option<int>,
    approvedBy: Option<string>,
    completedAt: Option<int>)

  /** Every row keeps its key, no row disappears, and every status moves only
      forward; a terminal row does not change at all. */
  ghost predicate LifecycleRespected(before: map<string, Request>, after: map<string, Request>) {
    && before.Keys <= after.Keys
    && (forall k :: k in before ==> Advances(before[k].status, after[k].status))
    && (forall k :: k in before && IsTerminal(before[k].status) ==> after[k] == before[k])
  }

  // ---------------------------------------------------------------------
  // The expiry sweep (server/index.js:284), comparing instants. Instants are
  // milliseconds; CURRENT_TIMESTAMP columns hold whole seconds.

  predicate Overdue(r: Request, now: int) {
    r.status == Pending && r.expiresAt < now
  }

  function Sweep(rows: map<string, Request>, now: int): (swept: map<string, Request>)
    ensures swept.Keys == rows.Keys
    ensures forall k :: k in rows && Overdue(rows[k], now) ==> swept[k] == rows[k].(status := Expired)
    ensures forall k :: k in rows && !Overdue(rows[k], now) ==> swept[k] == rows[k]
  {
    map k | k in rows :: if Overdue(rows[k], now) then rows[k].(status := Expired) else rows[k]
  }

  /** After a sweep no overdue row is left, the sweep respects the lifecycle,
      and sweeping again at the same time changes nothing. */
  lemma SweepProperties(rows: map<string, Request>, now: int)
    ensures forall k :: k in Sweep(rows, now) ==> !Overdue(Sweep(rows, now)[k], now)
    ensures LifecycleRespected(rows, Sweep(rows, now))
    ensures Sweep(Sweep(rows, now), now) == Sweep(rows, now)
  {
  }

  // ---------------------------------------------------------------------
  // The expiry clauses as SQLite evaluates them (server/index.js:284, 472).
  // `expires_at` holds the text of `Date.prototype.toISOString`
  // ("2026-10-14T12:00:00.000Z") while `datetime('now')` is the text
  // "2026-10-14 12:05:00". SQLite compares the two as text, and after the
  // ten characters of the date, 'T' sorts after ' '.

  /** `expires_at < datetime('now')`, the sweep's clause. */
  predicate ExpiredClauseAsWritten(expiresAtText: string, nowText: string) {
    TextLess(expiresAtText, nowText)
  }

  /** `expires_at > datetime('now')`, approve-all's clause. */
  predicate UnexpiredClauseAsWritten(expiresAtText: string, nowText: string) {
    TextLess(nowText, expiresAtText)
  }

  /** On the day a request expires, whatever the two times of day are, the
      sweep never finds it expired and approve-all always finds it unexpired. */
  lemma ExpiryClausesIgnoreTimeOfDay(date: string, isoTime: string, sqlTime: string)
    ensures !ExpiredClauseAsWritten(date + "T" + isoTime, date + " " + sqlTime)
    ensures UnexpiredClauseAsWritten(date + "T" + isoTime, date + " " + sqlTime)
  {
    assert date + "T" + isoTime == date + ("T" + isoTime);
    assert date + " " + sqlTime == date + (" " + sqlTime);
    TextLessCommonPrefix(date, "T" + isoTime, " " + sqlTime);
    TextLessCommonPrefix(date, " " + sqlTime, "T" + isoTime);
  }

  /** A request that expired at noon is still not swept five minutes later,
      although its expiry instant lies before the current one. */
  lemma ExpiredRequestSurvivesSweepAsWritten()
    ensures !ExpiredClauseAsWritten("2026-10-14T12:00:00.000Z", "2026-10-14 12:05:00")
    ensures UnexpiredClauseAsWritten("2026-10-14T12:00:00.000Z", "2026-10-14 12:05:00")
  {
    var expiresAt, now := "2026-10-14T12:00:00.000Z", "2026-10-14 12:05:00";
    assert expiresAt == "2026-10-14" + "T" + "12:00:00.000Z";
    assert now == "2026-10-14" + " " + "12:05:00";
    ExpiryClausesIgnoreTimeOfDay("2026-10-14", "12:00:00.000Z", "12:05:00");
  }

  // ---------------------------------------------------------------------
  // The list query: SELECT * … [WHERE status = ?] ORDER BY created_at DESC LIMIT 100
  // (server/index.js:286-292)

  const ListLimit: nat := 100

  /** The status filter of the query string; an empty filter selects every row. */
  predicate MatchesFilter(r: Request, filter: string) {
    filter == "" || StatusName(r.status) == filter
  }

  /** The rows, in table order, that the filter selects. */
  function Matching(order: seq<string>, rows: map<string, Request>, filter: string): (ms: seq<Request>)
    requires forall i :: 0 <= i < |order| ==> order[i] in rows
    ensures |ms| <= |order|
    ensures forall i :: 0 <= i < |ms| ==> MatchesFilter(ms[i], filter)
  {
    if order == [] then []
    else
      var rest := Matching(order[1..], rows, filter);
      if MatchesFilter(rows[order[0]], filter) then [rows[order[0]]] + rest else rest
  }

  /** The query selects exactly the rows of the table that the filter matches. */
  lemma {:induction false} MatchingSelects(order: seq<string>, rows: map<string, Request>, filter: string)
    requires forall i :: 0 <= i < |order| ==> order[i] in rows
    ensures forall i :: 0 <= i < |order| && MatchesFilter(rows[order[i]], filter) ==>
      rows[order[i]] in Matching(order, rows, filter)
    ensures forall r :: r in Matching(order, rows, filter) ==> exists i :: 0 <= i < |order| && rows[order[i]] == r
  {
    if order != [] {
      MatchingSelects(order[1..], rows, filter);
      forall i | 0 < i < |order| ensures order[i] == order[1..][i - 1] { }
      forall r | r in Matching(order[1..], rows, filter)
        ensures exists i :: 0 <= i < |order| && rows[order[i]] == r
      {
        var i :| 0 <= i < |order[1..]| && rows[order[1..][i]] == r;
        assert rows[order[i + 1]] == r;
      }
    }
  }

  /** Positions in the tail of the table, renumbered for the whole table. */
  function ShiftPositions(rest: seq<nat>): (shifted: seq<nat>)
    ensures |shifted| == |rest|
    ensures forall j :: 0 <= j < |rest| ==> shifted[j] == rest[j] + 1
    ensures 0 !in shifted
    ensures forall i :: 0 < i ==> (i in shifted <==> i - 1 in rest)
  {
    if rest == [] then [] else [rest[0] + 1] + ShiftPositions(rest[1..])
  }

  /** `idx` lists, in increasing order, the positions of `src` that `xs` holds. */
  predicate PicksInOrder<T(==)>(xs: seq<T>, idx: seq<nat>, src: seq<T>) {
    && |idx| == |xs|
    && (forall j :: 0 <= j < |idx| ==> idx[j] < |src| && xs[j] == src[idx[j]])
    && (forall j, j' :: 0 <= j < j' < |idx| ==> idx[j] < idx[j'])
  }

  /** Picks from the tail of `src`, renumbered, are picks from `src`, and
      the head of `src` can be put in front of them. */
  lemma PicksFromTail<T>(xs: seq<T>, rest: seq<nat>, src: seq<T>)
    requires src != [] && PicksInOrder(xs, rest, src[1..])
    ensures PicksInOrder(xs, ShiftPositions(rest), src)
    ensures PicksInOrder([src[0]] + xs, [0] + ShiftPositions(rest), src)
  {
    var shifted := ShiftPositions(rest);
    forall j | 0 <= j < |rest| ensures shifted[j] < |src| && xs[j] == src[shifted[j]] {
      assert src[1..][rest[j]] == src[shifted[j]];
    }
    var idx, ys := [0] + shifted, [src[0]] + xs;
    forall j | 0 <= j < |idx| ensures idx[j] < |src| && ys[j] == src[idx[j]] {
      if j > 0 { assert idx[j] == shifted[j - 1] && ys[j] == xs[j - 1]; }
    }
    forall j, j' | 0 <= j < j' < |idx| ensures idx[j] < idx[j'] {
      assert idx[j'] == shifted[j' - 1];
      if j > 0 { assert idx[j] == shifted[j - 1]; }
    }
  }

  /** The rows of the table, in table order. */
  function TableRows(order: seq<string>, rows: map<string, Request>): (src: seq<Request>)
    requires forall i :: 0 <= i < |order| ==> order[i] in rows
    ensures |src| == |order| && forall i :: 0 <= i < |order| ==> src[i] == rows[order[i]]
  {
    seq(|order|, i requires 0 <= i < |order| => rows[order[i]])
  }

  /** The table positions the query keeps: the filter keeps every matching
      row once, in table order, and nothing else. */
  function MatchingPositions(order: seq<string>, rows: map<string, Request>, filter: string): (idx: seq<nat>)
    requires forall i :: 0 <= i < |order| ==> order[i] in rows
    ensures PicksInOrder(Matching(order, rows, filter), idx, TableRows(order, rows))
    ensures forall i :: 0 <= i < |order| ==> (MatchesFilter(rows[order[i]], filter) <==> i in idx)
  {
    if order == [] then []
    else
      var rest := MatchingPositions(order[1..], rows, filter);
      var src := TableRows(order, rows);
      assert TableRows(order[1..], rows) == src[1..];
      PicksFromTail(Matching(order[1..], rows, filter), rest, src);
      assert forall i :: 0 < i < |order| ==> order[i] == order[1..][i - 1];
      if MatchesFilter(rows[order[0]], filter) then [0] + ShiftPositions(rest) else ShiftPositions(rest)
  }

  predicate NewestFirstOrder(s: seq<Request>) {
    forall i, j :: 0 <= i < j < |s| ==> s[i].createdAt >= s[j].createdAt
  }

  /** Places `r` in front of the first row that is older than it. */
  function InsertByAge(r: Request, s: seq<Request>): (t: seq<Request>)
    ensures multiset(t) == multiset(s) + multiset{r}
    ensures |t| == |s| + 1
  {
    if s == [] || r.createdAt >= s[0].createdAt then [r] + s
    else
      assert s == [s[0]] + s[1..];
      [s[0]] + InsertByAge(r, s[1..])
  }

  /** Inserting a row no newer than `bound` into rows no newer than `bound`
      gives rows no newer than `bound`. */
  lemma {:induction false} InsertByAgeBounded(r: Request, s: seq<Request>, bound: int)
    requires r.createdAt <= bound
    requires forall i :: 0 <= i < |s| ==> s[i].createdAt <= bound
    ensures forall i :: 0 <= i < |s| + 1 ==> InsertByAge(r, s)[i].createdAt <= bound
  {
    if s != [] && r.createdAt < s[0].createdAt {
      InsertByAgeBounded(r, s[1..], bound);
      var t := InsertByAge(r, s[1..]);
      assert InsertByAge(r, s) == [s[0]] + t;
    }
  }

  lemma {:induction false} InsertByAgeSorted(r: Request, s: seq<Request>)
    requires NewestFirstOrder(s)
    ensures NewestFirstOrder(InsertByAge(r, s))
  {
    if s != [] && r.createdAt < s[0].createdAt {
      var t := InsertByAge(r, s[1..]);
      assert NewestFirstOrder(s[1..]);
      InsertByAgeSorted(r, s[1..]);
      InsertByAgeBounded(r, s[1..], s[0].createdAt);
      assert InsertByAge(r, s) == [s[0]] + t;
    }
  }

  /** ORDER BY created_at DESC. SQLite leaves the order of rows with equal
      timestamps unspecified; the model chooses to keep their table order. */
  function NewestFirst(s: seq<Request>): (t: seq<Request>)
    ensures |t| == |s|
    ensures multiset(t) == multiset(s)
  {
    if s == [] then []
    else
      var rest := NewestFirst(s[1..]);
      assert s == [s[0]] + s[1..];
      InsertByAge(s[0], rest)
  }

  lemma {:induction false} NewestFirstSorted(s: seq<Request>)
    ensures NewestFirstOrder(NewestFirst(s))
  {
    if s != [] {
      NewestFirstSorted(s[1..]);
      InsertByAgeSorted(s[0], NewestFirst(s[1..]));
    }
  }

  function Take<T>(s: seq<T>, n: nat): (t: seq<T>)
    ensures |t| == if |s| <= n then |s| else n
    ensures t == s[..|t|]
  {
    if |s| <= n then s else s[..n]
  }

  /** A prefix holds no more of each element than the whole. */
  lemma TakeMultiset<T>(s: seq<T>, n: nat)
    ensures multiset(Take(s, n)) <= multiset(s)
  {
    var t := Take(s, n);
    assert s == t + s[|t|..];
  }

  /** Every row with the same multiset as the matching rows is selected by the filter. */
  lemma SelectedBySameRows(t: seq<Request>, ms: seq<Request>, filter: string)
    requires forall i :: 0 <= i < |ms| ==> MatchesFilter(ms[i], filter)
    requires multiset(t) <= multiset(ms)
    ensures forall i :: 0 <= i < |t| ==> MatchesFilter(t[i], filter)
  {
    forall i | 0 <= i < |t| ensures MatchesFilter(t[i], filter) {
      assert t[i] in multiset(ms);
      var j :| 0 <= j < |ms| && ms[j] == t[i];
    }
  }

  /** What the list query answers for a table whose rows are `rows` in table order `order`. */
  function ListQuery(order: seq<string>, rows: map<string, Request>, filter: string): (listed: seq<Request>)
    requires forall i :: 0 <= i < |order| ==> order[i] in rows
  {
    Take(NewestFirst(Matching(order, rows, filter)), ListLimit)
  }

  /** The list answers at most 100 rows, every one selected by the filter,
      newest first; it answers every selected row when there are at most 100,
      and none left out is newer than one listed. */
  lemma ListQueryProperties(order: seq<string>, rows: map<string, Request>, filter: string)
    requires forall i :: 0 <= i < |order| ==> order[i] in rows
    ensures var listed := ListQuery(order, rows, filter);
      var matching := Matching(order, rows, filter);
      && |listed| <= ListLimit
      && |listed| == (if |matching| <= ListLimit then |matching| else ListLimit)
      && (forall i :: 0 <= i < |listed| ==> MatchesFilter(listed[i], filter))
      && NewestFirstOrder(listed)
      && multiset(listed) <= multiset(matching)
      && (|matching| <= ListLimit ==> multiset(listed) == multiset(matching))
  {
    var matching := Matching(order, rows, filter);
    var sorted := NewestFirst(matching);
    NewestFirstSorted(matching);
    TakeMultiset(sorted, ListLimit);
    SelectedBySameRows(Take(sorted, ListLimit), matching, filter);
  }

  /** A row the list leaves out is no newer than any row it answers. */
  lemma ListQueryOmitsOnlyOlder(order: seq<string>, rows: map<string, Request>, filter: string, i: nat, j: nat)
    requires forall i :: 0 <= i < |order| ==> order[i] in rows
    requires |ListQuery(order, rows, filter)| <= i < |NewestFirst(Matching(order, rows, filter))|
    requires j < |ListQuery(order, rows, filter)|
    ensures ListQuery(order, rows, filter)[j].createdAt >= NewestFirst(Matching(order, rows, filter))[i].createdAt
  {
    NewestFirstSorted(Matching(order, rows, filter));
  }

  // ---------------------------------------------------------------------
  // Executing an approved request (server/index.js:383-405, 476-492)

  /** What running the command reports: its standard output, or the error
      `execSync` throws, with the exit status (None when killed by a signal),
      the captured streams and the error's message. */
  datatype ExecOutcome =
    | ExecSucceeded(output: string)
    | ExecFailed(exitStatus: Option<int>, stdout: Option<string>, stderr: Option<string>, message: string)

  /** `execError.status || 1` */
  function FailureExitCode(exitStatus: Option<int>): (code: int)
    ensures code != 0
    ensures exitStatus.Some? && exitStatus.value != 0 ==> code == exitStatus.value
    ensures exitStatus.None? || exitStatus.value == 0 ==> code == 1
  {
    if exitStatus.Some? && exitStatus.value != 0 then exitStatus.value else 1
  }

  /** The row once approved by `approver`: running, stamped with the time and
      the approving device's name. */
  function Started(r: Request, approver: string, now: int): (s: Request)
    ensures s.status == Running && s.approvedBy == Some(approver) && s.approvedAt == Some(now)
    ensures s.(status := r.status, approvedBy := r.approvedBy, approvedAt := r.approvedAt) == r
  {
    r.(status := Running, approvedAt := Some(now), approvedBy := Some(approver))
  }

  /** The row once its command has run. A failure records the exit code, the
      standard error (or the error's message when that is empty) and, when
      `recordStdout` holds, the standard output or `''`. */
  function Finished(r: Request, outcome: ExecOutcome, now: int, recordStdout: bool): (f: Request)
    ensures f.status == Completed || f.status == Failed
    ensures f.status == Completed <==> outcome.ExecSucceeded?
    ensures f.exitCode.Some? && (f.exitCode == Some(0) <==> f.status == Completed)
    ensures f.completedAt == Some(now)
    ensures outcome.ExecSucceeded? ==> f.stdout == Some(outcome.output) && f.stderr == r.stderr
    ensures outcome.ExecFailed? ==> f.exitCode == Some(FailureExitCode(outcome.exitStatus))
    ensures outcome.ExecFailed? ==> f.stderr == Some(OrElse(outcome.stderr, outcome.message))
    ensures outcome.ExecFailed? && recordStdout ==> f.stdout == Some(OrElse(outcome.stdout, ""))
    ensures outcome.ExecFailed? && !recordStdout ==> f.stdout == r.stdout
    ensures f.(status := r.status, exitCode := r.exitCode, stdout := r.stdout, stderr := r.stderr, completedAt := r.completedAt) == r
  {
    match outcome
    case ExecSucceeded(out) =>
      r.(status := Completed, exitCode := Some(0), stdout := Some(out), completedAt := Some(now))
    case ExecFailed(st, so, se, msg) =>
      r.(status := Failed,
         exitCode := Some(FailureExitCode(st)),
         stdout := if recordStdout then Some(OrElse(so, "")) else r.stdout,
         stderr := Some(OrElse(se, msg)),
         completedAt := Some(now))
  }

  /** Approving and executing takes a pending row to a terminal state in one
      step that the lifecycle allows; the command and the submission fields
      are not touched. */
  lemma ExecutionEndsTerminal(r: Request, approver: string, outcome: ExecOutcome, now: int, recordStdout: bool)
    requires r.status == Pending
    ensures var f := Finished(Started(r, approver, now), outcome, now, recordStdout);
      && IsTerminal(f.status) && Advances(r.status, f.status)
      && f.approvedBy == Some(approver)
      && f.id == r.id && f.command == r.command && f.createdAt == r.createdAt && f.expiresAt == r.expiresAt
  {
  }
}
