/** The approval gateway of server/index.js: the `devices`, `challenges` and
    `requests` tables and the handlers that read and change them. WebAuthn
    verification and command execution are foreign calls; their results are
    parameters, and the contracts say how each result drives the tables. */
module ApprovalServer {
  import opened Common
  import opened Requests

  datatype Ceremony = Registration | Authentication

  /** A row of `challenges` (server/index.js:96-101). */
  datatype Challenge = Challenge(value: string, kind: Ceremony, createdAt: int)

  /** A row of `devices` (server/index.js:68-77). */
  datatype Device = Device(
    name: string,
    credentialId: string,
    publicKey: string,
    counter: int,
    userAgent: Option<string>,
    registeredAt: int,
    lastUsedAt: Option<int>)

  /** A message sent to every connected WebSocket client. */
  datatype Event = NewRequest(request: Request) | RequestUpdated(request: Request) | Refresh

  /** What `verifyRegistrationResponse` gives back: a thrown error, or a
      verdict with the registration info it found. */
  datatype RegistrationInfo = RegistrationInfo(credentialId: string, publicKey: string, counter: int)
  datatype RegistrationCheck =
    | RegistrationThrew(message: string)
    | RegistrationChecked(verified: bool, info: Option<RegistrationInfo>)

  /** What `verifyAuthenticationResponse` gives back. */
  datatype AuthenticationCheck =
    | AuthenticationThrew(message: string)
    | AuthenticationChecked(verified: bool, newCounter: int)

  datatype RegistrationOptions = RegistrationOptions(
    challengeId: string, excludeCredentials: set<string>, userDisplayName: string, deviceName: Option<string>)
  datatype AuthenticationOptions = AuthenticationOptions(challengeId: string, allowCredentials: set<string>)
  datatype Submitted = Submitted(id: string, status: Status, createdAt: int, expiresAt: int)
  datatype Processed = Processed(id: string, status: Status)

  /** `new Date(ms).toISOString()` throws for times beyond ±8.64e15 ms. */
  const MaxTimeMs: int := 8_640_000_000_000_000
  const DefaultTimeoutSeconds: int := 300

  /** The body's `timeout` as `timeout * 1000` sees it after JavaScript's
      numeric coercion: absent (the default 300 applies), a finite number of
      seconds (a numeric string such as "60" coerces to one, null to 0, and
      fractions are kept), or a value that coerces to NaN or an infinity (a
      non-numeric string, an object). */
  datatype Timeout = Absent | Finite(seconds: real) | NonFinite

  /** Truncation toward zero, as `new Date(x)` applies it to its time value. */
  function TruncateTowardZero(x: real): (n: int)
    ensures x >= 0.0 ==> n as real <= x < n as real + 1.0
    ensures x <= 0.0 ==> n as real - 1.0 < x <= n as real
  {
    if x >= 0.0 then x.Floor else -((-x).Floor)
  }

  /** The expiry instant `new Date(Date.now() + timeout * 1000)` holds, in
      ms, or None when it is an invalid date, on which `toISOString` throws:
      a NaN or infinite timeout, or a time beyond ±8.64e15 ms. */
  function ExpiryInstant(now: int, timeout: Timeout): (t: Option<int>)
    ensures timeout.NonFinite? ==> t.None?
    ensures !timeout.NonFinite? ==>
      var x := now as real + (if timeout.Finite? then timeout.seconds else DefaultTimeoutSeconds as real) * 1000.0;
      && (t.Some? <==> -MaxTimeMs as real <= x <= MaxTimeMs as real)
      && (t.Some? ==> -MaxTimeMs <= t.value <= MaxTimeMs && -1.0 < x - t.value as real < 1.0)
      && (t.Some? && x >= 0.0 ==> t.value as real <= x)
      && (t.Some? && x <= 0.0 ==> x <= t.value as real)
  {
    if timeout.NonFinite? then None
    else
      var seconds := if timeout.Finite? then timeout.seconds else DefaultTimeoutSeconds as real;
      var x := now as real + seconds * 1000.0;
      if -MaxTimeMs as real <= x <= MaxTimeMs as real then Some(TruncateTowardZero(x)) else None
  }

  /** A whole number of seconds, or the default, moves the expiry by exactly
      that many thousand ms; half a second by 500 ms. */
  lemma ExpiryOfWholeSeconds(now: int, seconds: int)
    requires -MaxTimeMs <= now + seconds * 1000 <= MaxTimeMs
    ensures ExpiryInstant(now, Finite(seconds as real)) == Some(now + seconds * 1000)
    ensures seconds == DefaultTimeoutSeconds ==> ExpiryInstant(now, Absent) == Some(now + seconds * 1000)
    ensures 0 <= now <= MaxTimeMs - 500 ==> ExpiryInstant(now, Finite(0.5)) == Some(now + 500)
  {
    var x := now as real + (seconds as real) * 1000.0;
    assert x == (now + seconds * 1000) as real;
    assert TruncateTowardZero(x) == now + seconds * 1000;
    assert now as real + 0.5 * 1000.0 == (now + 500) as real;
  }

  ghost predicate CredentialsUnique(devices: map<string, Device>) {
    forall a, b :: a in devices && b in devices && a != b ==> devices[a].credentialId != devices[b].credentialId
  }

  function CredentialIds(devices: map<string, Device>): set<string> {
    set d | d in devices :: devices[d].credentialId
  }

  /** The device that holds credential `cred`. */
  ghost function Holder(devices: map<string, Device>, cred: string): (d: string)
    requires cred in CredentialIds(devices)
    ensures d in devices && devices[d].credentialId == cred
  {
    var d :| d in devices && devices[d].credentialId == cred; d
  }

  /** Updating a device's counter and last use keeps its credential, so the
      credential ids stay unique and unchanged. */
  lemma UsedDeviceKeepsCredentials(devices: map<string, Device>, d: string, counter: int, now: int)
    requires CredentialsUnique(devices) && d in devices
    ensures var devices' := devices[d := devices[d].(counter := counter, lastUsedAt := Some(now))];
      CredentialsUnique(devices') && CredentialIds(devices') == CredentialIds(devices)
  {
    var devices' := devices[d := devices[d].(counter := counter, lastUsedAt := Some(now))];
    forall x | x in CredentialIds(devices) ensures x in CredentialIds(devices') {
      var e :| e in devices && devices[e].credentialId == x;
      assert devices'[e].credentialId == x;
    }
  }

  /** `SELECT … FROM challenges WHERE id = ? AND type = ?` finds a row. */
  predicate ChallengeFor(challenges: map<string, Challenge>, id: string, kind: Ceremony) {
    id in challenges && challenges[id].kind == kind
  }

  predicate RegistrationAccepted(check: RegistrationCheck) {
    check.RegistrationChecked? && check.verified && check.info.Some?
  }

  predicate AuthenticationAccepted(check: AuthenticationCheck) {
    check.AuthenticationChecked? && check.verified
  }

  predicate Distinct(s: seq<string>) {
    forall i, j :: 0 <= i < j < |s| ==> s[i] != s[j]
  }

  /** The requests approve-all takes, in table order: pending and not yet
      past their expiry (server/index.js:472). */
  function Eligible(order: seq<string>, rows: map<string, Request>, now: int): (ids: seq<string>)
    requires forall i :: 0 <= i < |order| ==> order[i] in rows
    ensures forall i :: 0 <= i < |ids| ==> ids[i] in rows && ids[i] in order
    ensures forall i :: 0 <= i < |ids| ==> rows[ids[i]].status == Pending && rows[ids[i]].expiresAt > now
    ensures forall k :: k in order && rows[k].status == Pending && rows[k].expiresAt > now ==> k in ids
    ensures Distinct(order) ==> Distinct(ids)
  {
    if order == [] then []
    else
      var rest := Eligible(order[1..], rows, now);
      assert forall k :: k in order[1..] ==> k in order;
      assert Distinct(order) ==> order[0] !in order[1..] by {
        if Distinct(order) {
          forall j | 0 <= j < |order[1..]| ensures order[1..][j] != order[0] {
            assert order[1..][j] == order[j + 1];
          }
        }
      }
      assert Distinct(order) ==> Distinct(order[1..]) by {
        if Distinct(order) {
          forall i, j | 0 <= i < j < |order[1..]| ensures order[1..][i] != order[1..][j] {
            assert order[1..][i] == order[i + 1] && order[1..][j] == order[j + 1];
          }
        }
      }
      var r := rows[order[0]];
      if r.status == Pending && r.expiresAt > now then [order[0]] + rest else rest
  }

  /** The status approve-all reports for one request. */
  function Outcome(outcome: ExecOutcome): (s: Status)
    ensures s == Completed || s == Failed
    ensures s == Completed <==> outcome.ExecSucceeded?
  {
    if outcome.ExecSucceeded? then Completed else Failed
  }

  /** A row as approve-all leaves it: approved by `approver` and run, with
      the standard output of a failure not recorded. */
  function Ran(r: Request, approver: string, outcome: ExecOutcome, at: int): Request {
    Finished(Started(r, approver, at), outcome, at, false)
  }

  /** The table after running `ids` one after the other. */
  function RunAll(rows: map<string, Request>, ids: seq<string>, approver: string, execute: string -> ExecOutcome, at: int)
    : (after: map<string, Request>)
    requires forall i :: 0 <= i < |ids| ==> ids[i] in rows
    ensures after.Keys == rows.Keys
    decreases |ids|
  {
    if ids == [] then rows
    else
      var prior := RunAll(rows, ids[..|ids| - 1], approver, execute, at);
      var last := ids[|ids| - 1];
      prior[last := Ran(prior[last], approver, execute(last), at)]
  }

  /** Running distinct ids changes exactly those rows, each once. */
  lemma {:induction false} RunAllEffect(
    rows: map<string, Request>, ids: seq<string>, approver: string, execute: string -> ExecOutcome, at: int)
    requires forall i :: 0 <= i < |ids| ==> ids[i] in rows
    requires Distinct(ids)
    ensures forall k :: k in rows && k !in ids ==> RunAll(rows, ids, approver, execute, at)[k] == rows[k]
    ensures forall i :: 0 <= i < |ids| ==>
      RunAll(rows, ids, approver, execute, at)[ids[i]] == Ran(rows[ids[i]], approver, execute(ids[i]), at)
    decreases |ids|
  {
    if ids != [] {
      var init := ids[..|ids| - 1];
      var last := ids[|ids| - 1];
      assert Distinct(init);
      RunAllEffect(rows, init, approver, execute, at);
      assert last !in init by {
        forall j | 0 <= j < |init| ensures init[j] != last {
          assert init[j] == ids[j];
        }
      }
      forall k | k in rows && k !in ids ensures k !in init && k != last {
        forall j | 0 <= j < |init| ensures init[j] != k {
          assert init[j] == ids[j];
        }
      }
      forall i | 0 <= i < |ids| - 1 ensures ids[i] in init && ids[i] != last {
        assert init[i] == ids[i];
      }
    }
  }

  /** One more step of `RunAll`. */
  lemma RunAllStep(rows: map<string, Request>, ids: seq<string>, approver: string, execute: string -> ExecOutcome, at: int, i: nat)
    requires forall j :: 0 <= j < |ids| ==> ids[j] in rows
    requires i < |ids|
    ensures var prior := RunAll(rows, ids[..i], approver, execute, at);
      RunAll(rows, ids[..i + 1], approver, execute, at) == prior[ids[i] := Ran(prior[ids[i]], approver, execute(ids[i]), at)]
  {
    assert ids[..i + 1][..i] == ids[..i];
  }

  /** Running rows keyed by their ids keeps every row under its own id. */
  lemma {:induction false} RunAllKeepsIds(rows: map<string, Request>, ids: seq<string>, approver: string, execute: string -> ExecOutcome, at: int)
    requires forall i :: 0 <= i < |ids| ==> ids[i] in rows
    requires forall k :: k in rows ==> rows[k].id == k
    ensures forall k :: k in RunAll(rows, ids, approver, execute, at) ==> RunAll(rows, ids, approver, execute, at)[k].id == k
    decreases |ids|
  {
    if ids != [] {
      var prior := RunAll(rows, ids[..|ids| - 1], approver, execute, at);
      var last := ids[|ids| - 1];
      RunAllKeepsIds(rows, ids[..|ids| - 1], approver, execute, at);
      assert Ran(prior[last], approver, execute(last), at).id == prior[last].id;
    }
  }

  /** Approve-all's loop (server/index.js:475-494): each request in turn is
      approved and run, and the status it reached is reported. */
  method RunEach(table: map<string, Request>, ids: seq<string>, approver: string, execute: string -> ExecOutcome, at: int)
    returns (rows: map<string, Request>, results: seq<Processed>)
    requires forall i :: 0 <= i < |ids| ==> ids[i] in table
    ensures rows == RunAll(table, ids, approver, execute, at)
    ensures |results| == |ids|
    ensures forall i :: 0 <= i < |ids| ==> results[i] == Processed(ids[i], Outcome(execute(ids[i])))
  {
    rows := table;
    results := [];
    for i := 0 to |ids|
      invariant rows == RunAll(table, ids[..i], approver, execute, at)
      invariant |results| == i
      invariant forall j :: 0 <= j < i ==> results[j] == Processed(ids[j], Outcome(execute(ids[j])))
    {
      RunAllStep(table, ids, approver, execute, at, i);
      var id := ids[i];
      var outcome := execute(id);
      rows := rows[id := Ran(rows[id], approver, outcome, at)];
      AppendReport(results, ids, execute, i, Processed(id, Outcome(outcome)));
      results := results + [Processed(id, Outcome(outcome))];
    }
    assert ids[..|ids|] == ids;
  }

  lemma AppendReport(results: seq<Processed>, ids: seq<string>, execute: string -> ExecOutcome, i: nat, p: Processed)
    requires i < |ids| && |results| == i
    requires forall j :: 0 <= j < i ==> results[j] == Processed(ids[j], Outcome(execute(ids[j])))
    requires p == Processed(ids[i], Outcome(execute(ids[i])))
    ensures forall j :: 0 <= j < i + 1 ==> (results + [p])[j] == Processed(ids[j], Outcome(execute(ids[j])))
  {
  }

  /** What running `ids` to a terminal state did to the table: every row
      keeps its key and its id, each of `ids` is approved and finished, the
      other rows are unchanged, and the lifecycle is respected. */
  ghost predicate RanToCompletion(
    before: map<string, Request>, after: map<string, Request>, ids: seq<string>,
    approver: string, execute: string -> ExecOutcome, at: int)
  {
    && after.Keys == before.Keys
    && (forall k :: k in after ==> after[k].id == k)
    && (forall k :: k in before && k !in ids ==> after[k] == before[k])
    && (forall i :: 0 <= i < |ids| ==>
          ids[i] in before && ids[i] in after && after[ids[i]] == Ran(before[ids[i]], approver, execute(ids[i]), at))
    && LifecycleRespected(before, after)
  }

  /** Everything approve-all's loop does to the table, in one statement. */
  lemma RunAllOutcome(table: map<string, Request>, ids: seq<string>, approver: string, execute: string -> ExecOutcome, at: int)
    requires Distinct(ids)
    requires forall i :: 0 <= i < |ids| ==> ids[i] in table && table[ids[i]].status == Pending
    requires forall k :: k in table ==> table[k].id == k
    ensures RanToCompletion(table, RunAll(table, ids, approver, execute, at), ids, approver, execute, at)
  {
    var after := RunAll(table, ids, approver, execute, at);
    RunAllEffect(table, ids, approver, execute, at);
    RanAllRespectsLifecycle(table, after, ids, approver, execute, at);
    RunAllKeepsIds(table, ids, approver, execute, at);
  }

  /** Running pending rows to completion, and leaving the others alone,
      respects the lifecycle and keeps every row's id. */
  lemma RanAllRespectsLifecycle(
    before: map<string, Request>, after: map<string, Request>, ids: seq<string>,
    approver: string, execute: string -> ExecOutcome, at: int)
    requires forall i :: 0 <= i < |ids| ==> ids[i] in before && before[ids[i]].status == Pending
    requires after.Keys == before.Keys
    requires forall k :: k in before && k !in ids ==> after[k] == before[k]
    requires forall i :: 0 <= i < |ids| ==>
      after[ids[i]] == Ran(before[ids[i]], approver, execute(ids[i]), at)
    ensures LifecycleRespected(before, after)
    ensures forall k :: k in before ==> after[k].id == before[k].id
  {
    forall k | k in before && k in ids
      ensures IsTerminal(after[k].status) && Advances(before[k].status, after[k].status)
      ensures after[k].id == before[k].id
    {
      var j :| 0 <= j < |ids| && ids[j] == k;
      ExecutionEndsTerminal(before[k], approver, execute(k), at, false);
    }
  }

  /** Replacing a pending row by a row with the same id keeps the table
      well formed and respects the lifecycle. */
  lemma PendingRowReplaced(rows: map<string, Request>, order: seq<string>, id: string, row: Request)
    requires id in rows && rows[id].status == Pending && row.id == id
    requires forall k :: k in rows ==> rows[k].id == k
    requires forall i :: 0 <= i < |order| ==> order[i] in rows
    ensures var after := rows[id := row];
      && LifecycleRespected(rows, after)
      && (forall k :: k in after ==> after[k].id == k)
      && (forall i :: 0 <= i < |order| ==> order[i] in after)
      && after.Keys == rows.Keys
  {
  }

  /** The requests table is keyed by id, and `order` lists each of its rows
      exactly once. */
  ghost predicate TableInOrder(rows: map<string, Request>, order: seq<string>) {
    && (forall k :: k in rows ==> rows[k].id == k)
    && (forall i :: 0 <= i < |order| ==> order[i] in rows)
    && (forall k :: k in rows ==> k in order)
    && Distinct(order)
  }

  /** Rewriting rows in place, each under its own id, keeps the table order. */
  lemma SameKeysKeepOrder(before: map<string, Request>, after: map<string, Request>, order: seq<string>)
    requires TableInOrder(before, order)
    requires after.Keys == before.Keys
    requires forall k :: k in after ==> after[k].id == k
    ensures TableInOrder(after, order)
  {
  }

  class Gateway {
    var devices: map<string, Device>
    var challenges: map<string, Challenge>
    var requests: map<string, Request>
    /** The request ids in insertion (rowid) order: the order of a table scan. */
    var rowOrder: seq<string>
    /** Everything `broadcast` has sent. */
    ghost var events: seq<Event>

    ghost predicate Valid()
      reads this
    {
      && CredentialsUnique(devices)
      && TableInOrder(requests, rowOrder)
    }

    constructor ()
      ensures Valid()
      ensures devices == map[] && challenges == map[] && requests == map[] && rowOrder == [] && events == []
    {
      devices, challenges, requests, rowOrder := map[], map[], map[], [];
      events := [];
    }

    /** POST /api/devices/register/start (server/index.js:159-189): stores a
        registration challenge and excludes every known credential. */
    method RegisterStart(name: Option<string>, challengeId: string, challengeValue: string, now: int)
      returns (options: RegistrationOptions)
      requires Valid()
      requires challengeId !in challenges
      modifies this
      ensures Valid()
      ensures challenges == old(challenges)[challengeId := Challenge(challengeValue, Registration, Seconds(now))]
      ensures devices == old(devices) && requests == old(requests) && rowOrder == old(rowOrder) && events == old(events)
      ensures options == RegistrationOptions(challengeId, CredentialIds(devices), OrElse(name, "Admin Device"), name)
    {
      challenges := challenges[challengeId := Challenge(challengeValue, Registration, Seconds(now))];
      options := RegistrationOptions(challengeId, CredentialIds(devices), OrElse(name, "Admin Device"), name);
    }

    /** POST /api/devices/register/complete (server/index.js:192-235). */
    method RegisterComplete(
      challengeId: string, check: RegistrationCheck, deviceName: Option<string>, userAgent: Option<string>,
      idSuffix: string, now: int)
      returns (reply: Reply<string>)
      requires Valid()
      requires "dev_" + idSuffix !in devices
      modifies this
      ensures Valid()
      ensures requests == old(requests) && rowOrder == old(rowOrder) && events == old(events)
      ensures !ChallengeFor(old(challenges), challengeId, Registration) ==>
        reply == BadRequest("Invalid or expired challenge")
      ensures ChallengeFor(old(challenges), challengeId, Registration) && check.RegistrationThrew? ==>
        reply == BadRequest(check.message)
      ensures ChallengeFor(old(challenges), challengeId, Registration) && check.RegistrationChecked? && !RegistrationAccepted(check) ==>
        reply == BadRequest("Verification failed")
      ensures (ChallengeFor(old(challenges), challengeId, Registration) && RegistrationAccepted(check) &&
               check.info.value.credentialId in CredentialIds(old(devices))) ==>
        reply == BadRequest("UNIQUE constraint failed: devices.credential_id")
      ensures reply.Ok? <==>
        ChallengeFor(old(challenges), challengeId, Registration) && RegistrationAccepted(check) &&
        check.info.value.credentialId !in CredentialIds(old(devices))
      ensures reply.Ok? ==>
        var info := check.info.value;
        && reply.value == "dev_" + idSuffix
        && devices == old(devices)["dev_" + idSuffix := Device(OrElse(deviceName, "Unknown Device"),
             info.credentialId, info.publicKey, info.counter, OrNull(userAgent), Seconds(now), None)]
        && challenges == old(challenges) - {challengeId}
      ensures !reply.Ok? ==> devices == old(devices) && challenges == old(challenges)
    {
      if !ChallengeFor(challenges, challengeId, Registration) {
        return BadRequest("Invalid or expired challenge");
      }
      match check
      case RegistrationThrew(message) =>
        reply := BadRequest(message);
      case RegistrationChecked(verified, info) =>
        if !(verified && info.Some?) {
          return BadRequest("Verification failed");
        }
        var found := FindDevice(info.value.credentialId);
        if found.Some? {
          return BadRequest("UNIQUE constraint failed: devices.credential_id");
        }
        var deviceId := "dev_" + idSuffix;
        var device := Device(OrElse(deviceName, "Unknown Device"), info.value.credentialId, info.value.publicKey,
                             info.value.counter, OrNull(userAgent), Seconds(now), None);
        devices := devices[deviceId := device];
        challenges := challenges - {challengeId};
        reply := Ok(deviceId);
    }

    /** DELETE /api/devices/:id (server/index.js:238-246): 404 exactly when no row was removed. */
    method DeleteDevice(id: string) returns (reply: Reply<()>)
      requires Valid()
      modifies this
      ensures Valid()
      ensures devices == old(devices) - {id}
      ensures challenges == old(challenges) && requests == old(requests) && rowOrder == old(rowOrder) && events == old(events)
      ensures reply.Ok? <==> id in old(devices)
      ensures !reply.Ok? ==> reply == NotFound("Device not found")
    {
      if id in devices {
        devices := devices - {id};
        reply := Ok(());
      } else {
        reply := NotFound("Device not found");
      }
    }

    /** POST /api/auth/start (server/index.js:309-333): refuses when no device
        is registered; otherwise stores an authentication challenge and allows
        every known credential. */
    method AuthStart(challengeId: string, challengeValue: string, now: int) returns (reply: Reply<AuthenticationOptions>)
      requires Valid()
      requires challengeId !in challenges
      modifies this
      ensures Valid()
      ensures devices == old(devices) && requests == old(requests) && rowOrder == old(rowOrder) && events == old(events)
      ensures devices == map[] ==> reply == BadRequest("No devices registered") && challenges == old(challenges)
      ensures devices != map[] ==>
        && reply == Ok(AuthenticationOptions(challengeId, CredentialIds(devices)))
        && challenges == old(challenges)[challengeId := Challenge(challengeValue, Authentication, Seconds(now))]
    {
      if devices == map[] {
        return BadRequest("No devices registered");
      }
      challenges := challenges[challengeId := Challenge(challengeValue, Authentication, Seconds(now))];
      reply := Ok(AuthenticationOptions(challengeId, CredentialIds(devices)));
    }

    /** POST /api/requests (server/index.js:251-277). A missing command is
        rejected; otherwise one pending row is added and announced. */
    method CreateRequest(
      command: Option<string>, reason: Option<string>, agent: Option<string>, priority: Option<string>,
      timeout: Timeout, idSuffix: string, now: int)
      returns (reply: Reply<Submitted>)
      requires Valid()
      requires "req_" + idSuffix !in requests
      modifies this
      ensures Valid()
      ensures devices == old(devices) && challenges == old(challenges)
      ensures LifecycleRespected(old(requests), requests)
      ensures !Truthy(command) ==> reply == BadRequest("Command is required")
      ensures Truthy(command) && ExpiryInstant(now, timeout).None? ==> reply == InternalError("Invalid time value")
      ensures !reply.Ok? ==> requests == old(requests) && rowOrder == old(rowOrder) && events == old(events)
      ensures reply.Ok? ==>
        var id := "req_" + idSuffix;
        && Truthy(command) && ExpiryInstant(now, timeout).Some?
        && var expiresAt := ExpiryInstant(now, timeout).value;
        var row := Request(id, command.value, OrNull(reason), OrNull(agent), priority.GetOr("normal"), Pending,
                           None, None, None, Seconds(now), expiresAt, None, None, None);
        && reply == Ok(Submitted(id, Pending, Seconds(now), expiresAt))
        && requests == old(requests)[id := row]
        && rowOrder == old(rowOrder) + [id]
        && events == old(events) + [NewRequest(row)]
    {
      if !Truthy(command) {
        return BadRequest("Command is required");
      }
      var id := "req_" + idSuffix;
      var expiry := ExpiryInstant(now, timeout);
      if expiry.None? {
        return InternalError("Invalid time value");
      }
      var expiresAt := expiry.value;
      var row := Request(id, command.value, OrNull(reason), OrNull(agent), priority.GetOr("normal"), Pending,
                         None, None, None, Seconds(now), expiresAt, None, None, None);
      requests := requests[id := row];
      rowOrder := rowOrder + [id];
      events := events + [NewRequest(row)];
      reply := Ok(Submitted(id, Pending, Seconds(now), expiresAt));
    }

    /** GET /api/requests (server/index.js:280-294): expires every overdue
        pending row, then answers the list query. */
    method ListRequests(filter: string, now: int) returns (listed: seq<Request>)
      requires Valid()
      modifies this
      ensures Valid()
      ensures requests == Sweep(old(requests), now)
      ensures LifecycleRespected(old(requests), requests)
      ensures devices == old(devices) && challenges == old(challenges) && rowOrder == old(rowOrder) && events == old(events)
      ensures listed == ListQuery(rowOrder, requests, filter)
    {
      SweepProperties(requests, now);
      requests := Sweep(requests, now);
      listed := ListQuery(rowOrder, requests, filter);
    }

    /** GET /api/requests/:id (server/index.js:297-306). */
    method GetRequest(id: string) returns (reply: Reply<Request>)
      ensures id in requests ==> reply == Ok(requests[id])
      ensures id !in requests ==> reply == NotFound("Request not found")
    {
      if id in requests {
        reply := Ok(requests[id]);
      } else {
        reply := NotFound("Request not found");
      }
    }

    /** The device whose credential id is `credentialId`, if any
        (`SELECT * FROM devices WHERE credential_id = ?`). */
    method FindDevice(credentialId: string) returns (found: Option<string>)
      requires Valid()
      ensures found.Some? ==> found.value in devices && devices[found.value].credentialId == credentialId
      ensures found.None? <==> credentialId !in CredentialIds(devices)
      ensures found.Some? ==> found.value == Holder(devices, credentialId)
    {
      if credentialId in CredentialIds(devices) {
        var d :| d in devices && devices[d].credentialId == credentialId;
        assert d == Holder(devices, credentialId);
        found := Some(d);
      } else {
        found := None;
      }
    }

    /** The verified device's counter and last use are recorded and the
        challenge is consumed (server/index.js:373-380, 462-466). */
    method RecordAuthentication(d: string, newCounter: int, challengeId: string, now: int)
      requires Valid() && d in devices
      modifies this
      ensures Valid()
      ensures devices == old(devices)[d := old(devices)[d].(counter := newCounter, lastUsedAt := Some(Seconds(now)))]
      ensures CredentialIds(devices) == CredentialIds(old(devices))
      ensures challenges == old(challenges) - {challengeId}
      ensures requests == old(requests) && rowOrder == old(rowOrder) && events == old(events)
    {
      UsedDeviceKeepsCredentials(devices, d, newCounter, Seconds(now));
      devices := devices[d := devices[d].(counter := newCounter, lastUsedAt := Some(Seconds(now)))];
      challenges := challenges - {challengeId};
    }

    /** Runs one approved request and announces it twice: as running, and
        with its final row (server/index.js:383-405). */
    method Execute(id: string, approver: string, outcome: ExecOutcome, now: int)
      requires Valid() && id in requests && requests[id].status == Pending
      modifies this
      ensures Valid()
      ensures requests == old(requests)[id := Finished(Started(old(requests)[id], approver, Seconds(now)), outcome, Seconds(now), true)]
      ensures events == old(events) + [RequestUpdated(old(requests)[id].(status := Running)), RequestUpdated(requests[id])]
      ensures devices == old(devices) && challenges == old(challenges) && rowOrder == old(rowOrder)
      ensures LifecycleRespected(old(requests), requests)
    {
      var request := requests[id];
      var started := Started(request, approver, Seconds(now));
      var finished := Finished(started, outcome, Seconds(now), true);
      ExecutionEndsTerminal(request, approver, outcome, Seconds(now), true);
      PendingRowReplaced(requests, rowOrder, id, finished);
      requests := requests[id := finished];
      events := events + [RequestUpdated(request.(status := Running)), RequestUpdated(finished)];
    }

    /** Runs each of `ids`, in order, to a terminal state without announcing
        it, and reports the status each reached (server/index.js:475-493). */
    method ExecuteAll(ids: seq<string>, approver: string, execute: string -> ExecOutcome, now: int)
      returns (results: seq<Processed>)
      requires Valid() && Distinct(ids)
      requires forall i :: 0 <= i < |ids| ==> ids[i] in requests && requests[ids[i]].status == Pending
      modifies this
      ensures Valid()
      ensures requests == RunAll(old(requests), ids, approver, execute, Seconds(now))
      ensures |results| == |ids|
      ensures forall i :: 0 <= i < |ids| ==> results[i] == Processed(ids[i], Outcome(execute(ids[i])))
      ensures devices == old(devices) && challenges == old(challenges) && rowOrder == old(rowOrder) && events == old(events)
    {
      var table := requests;
      var rows;
      rows, results := RunEach(table, ids, approver, execute, Seconds(now));
      RunAllKeepsIds(table, ids, approver, execute, Seconds(now));
      SameKeysKeepOrder(table, rows, rowOrder);
      requests := rows;
    }

    /** POST /api/requests/:id/approve (server/index.js:336-419). */
    method Approve(
      id: string, challengeId: string, credentialId: string, check: AuthenticationCheck, outcome: ExecOutcome, now: int)
      returns (reply: Reply<Request>)
      requires Valid()
      modifies this
      ensures Valid()
      ensures rowOrder == old(rowOrder)
      ensures LifecycleRespected(old(requests), requests)
      ensures id !in old(requests) ==> reply == NotFound("Request not found")
      ensures id in old(requests) && old(requests)[id].status != Pending ==>
        reply == BadRequest("Request is already " + StatusName(old(requests)[id].status))
      ensures id in old(requests) && old(requests)[id].status == Pending ==>
        && (!ChallengeFor(old(challenges), challengeId, Authentication) ==> reply == BadRequest("Invalid or expired challenge"))
        && (ChallengeFor(old(challenges), challengeId, Authentication) && credentialId !in CredentialIds(old(devices)) ==>
              reply == BadRequest("Unknown device"))
        && (ChallengeFor(old(challenges), challengeId, Authentication) && credentialId in CredentialIds(old(devices)) ==>
              && (check.AuthenticationThrew? ==> reply == BadRequest(check.message))
              && (check.AuthenticationChecked? && !check.verified ==> reply == BadRequest("Authentication failed")))
      ensures reply.Ok? <==>
        id in old(requests) && old(requests)[id].status == Pending &&
        ChallengeFor(old(challenges), challengeId, Authentication) && credentialId in CredentialIds(old(devices)) &&
        AuthenticationAccepted(check)
      ensures !reply.Ok? ==>
        devices == old(devices) && challenges == old(challenges) && requests == old(requests) && events == old(events)
      ensures reply.Ok? ==>
        && challenges == old(challenges) - {challengeId}
        && reply == Ok(requests[id])
        && events == old(events) + [RequestUpdated(old(requests)[id].(status := Running)), RequestUpdated(requests[id])]
        && var d := Holder(old(devices), credentialId);
        && devices == old(devices)[d := old(devices)[d].(counter := check.newCounter, lastUsedAt := Some(Seconds(now)))]
        && requests == old(requests)[id := Finished(Started(old(requests)[id], old(devices)[d].name, Seconds(now)), outcome, Seconds(now), true)]
    {
      if id !in requests {
        return NotFound("Request not found");
      }
      if requests[id].status != Pending {
        return BadRequest("Request is already " + StatusName(requests[id].status));
      }
      if !ChallengeFor(challenges, challengeId, Authentication) {
        return BadRequest("Invalid or expired challenge");
      }
      var found := FindDevice(credentialId);
      if found.None? {
        return BadRequest("Unknown device");
      }
      if check.AuthenticationThrew? {
        return BadRequest(check.message);
      }
      if !check.verified {
        return BadRequest("Authentication failed");
      }
      var d := found.value;
      var approver := devices[d].name;
      RecordAuthentication(d, check.newCounter, challengeId, now);
      Execute(id, approver, outcome, now);
      reply := Ok(requests[id]);
    }

    /** POST /api/requests/:id/deny (server/index.js:422-434): only a pending
        row changes; anything else, an unknown id included, is a 400. */
    method Deny(id: string, now: int) returns (reply: Reply<()>)
      requires Valid()
      modifies this
      ensures Valid()
      ensures devices == old(devices) && challenges == old(challenges) && rowOrder == old(rowOrder)
      ensures LifecycleRespected(old(requests), requests)
      ensures reply.Ok? <==> id in old(requests) && old(requests)[id].status == Pending
      ensures reply.Ok? ==>
        && requests == old(requests)[id := old(requests)[id].(status := Denied, completedAt := Some(Seconds(now)))]
        && events == old(events) + [RequestUpdated(requests[id])]
      ensures !reply.Ok? ==>
        reply == BadRequest("Request not found or not pending") && requests == old(requests) && events == old(events)
    {
      if id in requests && requests[id].status == Pending {
        PendingRowReplaced(requests, rowOrder, id, requests[id].(status := Denied, completedAt := Some(Seconds(now))));
        requests := requests[id := requests[id].(status := Denied, completedAt := Some(Seconds(now)))];
        events := events + [RequestUpdated(requests[id])];
        reply := Ok(());
      } else {
        reply := BadRequest("Request not found or not pending");
      }
    }

    /** POST /api/requests/approve-all (server/index.js:437-505): one
        verification, then every eligible request in table order is run to a
        terminal state; a single `refresh` is announced at the end. */
    method ApproveAll(
      challengeId: string, credentialId: string, check: AuthenticationCheck, execute: string -> ExecOutcome, now: int)
      returns (reply: Reply<seq<Processed>>)
      requires Valid()
      modifies this
      ensures Valid()
      ensures rowOrder == old(rowOrder)
      ensures LifecycleRespected(old(requests), requests)
      ensures !ChallengeFor(old(challenges), challengeId, Authentication) ==> reply == BadRequest("Invalid or expired challenge")
      ensures ChallengeFor(old(challenges), challengeId, Authentication) && credentialId !in CredentialIds(old(devices)) ==>
        reply == BadRequest("Unknown device")
      ensures ChallengeFor(old(challenges), challengeId, Authentication) && credentialId in CredentialIds(old(devices)) ==>
        && (check.AuthenticationThrew? ==> reply == BadRequest(check.message))
        && (check.AuthenticationChecked? && !check.verified ==> reply == BadRequest("Authentication failed"))
      ensures reply.Ok? <==>
        ChallengeFor(old(challenges), challengeId, Authentication) && credentialId in CredentialIds(old(devices)) &&
        AuthenticationAccepted(check)
      ensures !reply.Ok? ==>
        devices == old(devices) && challenges == old(challenges) && requests == old(requests) && events == old(events)
      ensures reply.Ok? ==>
        var eligible := Eligible(old(rowOrder), old(requests), now);
        && challenges == old(challenges) - {challengeId}
        && events == old(events) + [Refresh]
        && |reply.value| == |eligible|
        && (forall i :: 0 <= i < |eligible| ==> reply.value[i] == Processed(eligible[i], Outcome(execute(eligible[i]))))
        && var d := Holder(old(devices), credentialId);
        && devices == old(devices)[d := old(devices)[d].(counter := check.newCounter, lastUsedAt := Some(Seconds(now)))]
        && RanToCompletion(old(requests), requests, eligible, old(devices)[d].name, execute, Seconds(now))
    {
      if !ChallengeFor(challenges, challengeId, Authentication) {
        return BadRequest("Invalid or expired challenge");
      }
      var found := FindDevice(credentialId);
      if found.None? {
        return BadRequest("Unknown device");
      }
      if check.AuthenticationThrew? {
        return BadRequest(check.message);
      }
      if !check.verified {
        return BadRequest("Authentication failed");
      }
      var d := found.value;
      var approver := devices[d].name;
      RecordAuthentication(d, check.newCounter, challengeId, now);
      var eligible := Eligible(rowOrder, requests, now);
      ghost var table := requests;
      var results := ExecuteAll(eligible, approver, execute, now);
      RunAllOutcome(table, eligible, approver, execute, Seconds(now));
      events := events + [Refresh];
      reply := Ok(results);
    }
  }
}
