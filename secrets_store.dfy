/** The `secrets` table (server/secrets-api.js:141-151) and the handlers of
    server/secrets-api.js. Rows are keyed by (project, config, key); the
    table's UNIQUE constraint is the map's key, and the `id` column is kept
    unique by an invariant. */
module SecretStore {
  import opened Common

  datatype SecretKey = SecretKey(project: string, config: string, key: string)

  datatype SecretRow = SecretRow(
    id: string,
    value: string,
    description: Option<string>,
    createdAt: int,
    updatedAt: int)

  datatype Action = Created | Updated

  /** The answer of a single set: the new id is sent only on `created`. */
  datatype SetOutcome = SetOutcome(id: Option<string>, action: Action)

  /** One entry of a bulk set's `results`. */
  datatype BulkResult = BulkResult(key: string, id: Option<string>, action: Action)

  type Rows = map<SecretKey, SecretRow>

  function Ids(rows: Rows): set<string> {
    set k | k in rows :: rows[k].id
  }

  ghost predicate IdsUnique(rows: Rows) {
    forall a, b :: a in rows && b in rows && a != b ==> rows[a].id != rows[b].id
  }

  /** The rows `WHERE project = ? AND config = ?` selects. */
  function InConfig(rows: Rows, project: string, config: string): set<SecretKey> {
    set k | k in rows && k.project == project && k.config == config
  }

  predicate Distinct(s: seq<string>) {
    forall i, j :: 0 <= i < j < |s| ==> s[i] != s[j]
  }

  // ---------------------------------------------------------------------
  // Bulk set (server/secrets-api.js:80-111) as a function of the table

  /** One entry of a bulk set: an existing row takes the new value and keeps
      its description; a missing one is inserted without a description. */
  function BulkUpsert(rows: Rows, k: SecretKey, value: string, id: string, at: int): (after: Rows)
    ensures after.Keys == rows.Keys + {k}
    ensures after[k].value == value
    ensures forall k' :: k' in rows && k' != k ==> after[k'] == rows[k']
    ensures k in rows ==> after[k] == rows[k].(value := value, updatedAt := at)
    ensures k !in rows ==> after[k] == SecretRow(id, value, None, at, at)
  {
    if k in rows then rows[k := rows[k].(value := value, updatedAt := at)]
    else rows[k := SecretRow(id, value, None, at, at)]
  }

  /** The table and the results after the entries, in order; `ids[i]` is the
      id a new row for `entries[i]` would get. */
  function Bulk(rows: Rows, project: string, config: string, entries: seq<(string, string)>, ids: seq<string>, at: int)
    : (r: (Rows, seq<BulkResult>))
    requires |ids| == |entries|
    ensures |r.1| == |entries|
    ensures forall i :: 0 <= i < |entries| ==> r.1[i].key == entries[i].0
    ensures rows.Keys <= r.0.Keys
    ensures forall k :: k in r.0 && k !in rows ==> k.project == project && k.config == config
    ensures forall i :: 0 <= i < |entries| ==> SecretKey(project, config, entries[i].0) in r.0
    decreases |entries|
  {
    if entries == [] then (rows, [])
    else
      var n := |entries| - 1;
      var prior := Bulk(rows, project, config, entries[..n], ids[..n], at);
      var k := SecretKey(project, config, entries[n].0);
      var result := BulkResultFor(prior.0, k, ids[n]);
      var after := BulkUpsert(prior.0, k, entries[n].1, ids[n], at);
      assert forall i :: 0 <= i < n ==> entries[..n][i] == entries[i];
      (after, prior.1 + [result])
  }

  /** Rows the entries do not name are left as they were. */
  lemma {:induction false} BulkFrame(
    rows: Rows, project: string, config: string, entries: seq<(string, string)>, ids: seq<string>, at: int, k: SecretKey)
    requires |ids| == |entries|
    requires k in rows
    requires forall i :: 0 <= i < |entries| ==> SecretKey(project, config, entries[i].0) != k
    ensures Bulk(rows, project, config, entries, ids, at).0[k] == rows[k]
    decreases |entries|
  {
    if entries != [] {
      var n := |entries| - 1;
      forall i | 0 <= i < n ensures SecretKey(project, config, entries[..n][i].0) != k {
        assert entries[..n][i] == entries[i];
      }
      BulkFrame(rows, project, config, entries[..n], ids[..n], at, k);
    }
  }

  /** A bulk set never changes the description of a row that existed. */
  lemma {:induction false} BulkKeepsDescriptions(
    rows: Rows, project: string, config: string, entries: seq<(string, string)>, ids: seq<string>, at: int, k: SecretKey)
    requires |ids| == |entries|
    requires k in rows
    ensures Bulk(rows, project, config, entries, ids, at).0[k].description == rows[k].description
    decreases |entries|
  {
    if entries != [] {
      var n := |entries| - 1;
      BulkKeepsDescriptions(rows, project, config, entries[..n], ids[..n], at, k);
    }
  }

  /** When the body names each key once (as a JSON object does), every entry's
      key holds that entry's value afterwards. */
  lemma {:induction false} BulkStoresEveryEntry(
    rows: Rows, project: string, config: string, entries: seq<(string, string)>, ids: seq<string>, at: int, j: nat)
    requires |ids| == |entries|
    requires forall a, b :: 0 <= a < b < |entries| ==> entries[a].0 != entries[b].0
    requires j < |entries|
    ensures Bulk(rows, project, config, entries, ids, at).0[SecretKey(project, config, entries[j].0)].value == entries[j].1
    decreases |entries|
  {
    var n := |entries| - 1;
    if j < n {
      assert entries[..n][j] == entries[j];
      BulkStoresEveryEntry(rows, project, config, entries[..n], ids[..n], at, j);
    }
  }

  /** A bulk set reports `created`, with the new id, exactly for an entry
      whose key had no row before it. */
  lemma {:induction false} BulkResultActions(
    rows: Rows, project: string, config: string, entries: seq<(string, string)>, ids: seq<string>, at: int, j: nat)
    requires |ids| == |entries|
    requires j < |entries|
    ensures var result := Bulk(rows, project, config, entries, ids, at).1[j];
      var prior := Bulk(rows, project, config, entries[..j], ids[..j], at).0;
      && (result.action == Created <==> SecretKey(project, config, entries[j].0) !in prior)
      && (result.action == Created ==> result.id == Some(ids[j]))
      && (result.action == Updated ==> result.id == None)
    decreases |entries|
  {
    var n := |entries| - 1;
    if j < n {
      assert entries[..n][..j] == entries[..j] && ids[..n][..j] == ids[..j];
      assert entries[..n][j] == entries[j];
      BulkResultActions(rows, project, config, entries[..n], ids[..n], at, j);
    } else {
      assert entries[..j] == entries[..n] && ids[..j] == ids[..n];
    }
  }

  /** What one more entry adds to a bulk set. */
  function BulkResultFor(rows: Rows, k: SecretKey, id: string): BulkResult {
    if k in rows then BulkResult(k.key, None, Updated) else BulkResult(k.key, Some(id), Created)
  }

  lemma BulkStep(rows: Rows, project: string, config: string, entries: seq<(string, string)>, ids: seq<string>, at: int, i: nat)
    requires |ids| == |entries| && i < |entries|
    ensures var prior := Bulk(rows, project, config, entries[..i], ids[..i], at);
      var k := SecretKey(project, config, entries[i].0);
      Bulk(rows, project, config, entries[..i + 1], ids[..i + 1], at)
        == (BulkUpsert(prior.0, k, entries[i].1, ids[i], at), prior.1 + [BulkResultFor(prior.0, k, ids[i])])
  {
    assert entries[..i + 1][..i] == entries[..i] && ids[..i + 1][..i] == ids[..i];
  }

  /** Storing a row under its own id, or under one no row has, keeps the ids
      unique. */
  lemma StoreRowKeepsIdsUnique(rows: Rows, k: SecretKey, row: SecretRow)
    requires IdsUnique(rows)
    requires if k in rows then row.id == rows[k].id else row.id !in Ids(rows)
    ensures IdsUnique(rows[k := row])
  {
    var after := rows[k := row];
    forall a, b | a in after && b in after && a != b ensures after[a].id != after[b].id {
      if (a == k || b == k) && k !in rows {
        assert rows[if a == k then b else a].id in Ids(rows);
      }
    }
  }

  /** Inserting under a fresh id keeps the ids unique. */
  lemma BulkUpsertKeepsIdsUnique(rows: Rows, k: SecretKey, value: string, id: string, at: int)
    requires IdsUnique(rows) && id !in Ids(rows)
    ensures IdsUnique(BulkUpsert(rows, k, value, id, at))
    ensures Ids(BulkUpsert(rows, k, value, id, at)) <= Ids(rows) + {id}
  {
    var after := BulkUpsert(rows, k, value, id, at);
    forall x | x in Ids(after) ensures x in Ids(rows) + {id} {
      var k' :| k' in after && after[k'].id == x;
      if k' in rows { assert after[k'].id == rows[k'].id; }
    }
    forall a, b | a in after && b in after && a != b ensures after[a].id != after[b].id {
      if a != k && b != k {
      } else if k !in rows {
        assert rows[if a == k then b else a].id in Ids(rows);
      }
    }
  }

  /** A bulk set with distinct fresh ids keeps the ids unique. */
  lemma {:induction false} BulkKeepsIdsUnique(
    rows: Rows, project: string, config: string, entries: seq<(string, string)>, ids: seq<string>, at: int)
    requires |ids| == |entries|
    requires IdsUnique(rows) && Distinct(ids)
    requires forall i :: 0 <= i < |ids| ==> ids[i] !in Ids(rows)
    ensures IdsUnique(Bulk(rows, project, config, entries, ids, at).0)
    ensures forall x :: x in Ids(Bulk(rows, project, config, entries, ids, at).0) ==> x in Ids(rows) || x in ids
    decreases |entries|
  {
    if entries != [] {
      var n := |entries| - 1;
      BulkKeepsIdsUnique(rows, project, config, entries[..n], ids[..n], at);
      var prior := Bulk(rows, project, config, entries[..n], ids[..n], at).0;
      assert ids[n] !in ids[..n];
      assert ids[n] !in Ids(prior);
      var k := SecretKey(project, config, entries[n].0);
      BulkUpsertKeepsIdsUnique(prior, k, entries[n].1, ids[n], at);
      forall x | x in ids[..n] ensures x in ids { }
    }
  }

  class Store {
    var rows: Rows

    ghost predicate Valid()
      reads this
    {
      IdsUnique(rows)
    }

    constructor ()
      ensures Valid() && rows == map[]
    {
      rows := map[];
    }

    /** GET /api/secrets (server/secrets-api.js:7-12): every project once, ascending. */
    method ListProjects() returns (projects: seq<string>)
      ensures StrictlyAscending(projects)
      ensures forall p :: p in projects <==> exists k :: k in rows && k.project == p
    {
      projects := SortedDistinct(set k | k in rows :: k.project);
    }

    /** GET /api/secrets/:project (server/secrets-api.js:15-21): the project's
        configs, each once, ascending. */
    method ListConfigs(project: string) returns (configs: seq<string>)
      ensures StrictlyAscending(configs)
      ensures forall c :: c in configs <==> exists k :: k in rows && k.project == project && k.config == c
    {
      configs := SortedDistinct(set k | k in rows && k.project == project :: k.config);
    }

    /** GET /api/secrets/:project/:config (server/secrets-api.js:24-34): the
        key→value object of the selected rows. */
    method GetAll(project: string, config: string) returns (result: map<string, string>)
      ensures forall key :: key in result <==> SecretKey(project, config, key) in rows
      ensures forall key :: key in result ==> result[key] == rows[SecretKey(project, config, key)].value
    {
      result := map[];
      var selected := InConfig(rows, project, config);
      var pending := selected;
      ghost var seen: set<SecretKey> := {};
      while pending != {}
        invariant seen + pending == selected && seen * pending == {}
        invariant forall key :: key in result <==> SecretKey(project, config, key) in seen
        invariant forall key :: key in result ==> result[key] == rows[SecretKey(project, config, key)].value
        decreases pending
      {
        var k :| k in pending;
        result := result[k.key := rows[k].value];
        pending := pending - {k};
        seen := seen + {k};
      }
    }

    /** GET /api/secrets/:project/:config/:key (server/secrets-api.js:37-47). */
    method GetOne(project: string, config: string, key: string) returns (reply: Reply<string>)
      ensures SecretKey(project, config, key) in rows ==> reply == Ok(rows[SecretKey(project, config, key)].value)
      ensures SecretKey(project, config, key) !in rows ==> reply == NotFound("Secret not found")
    {
      var k := SecretKey(project, config, key);
      if k in rows {
        reply := Ok(rows[k].value);
      } else {
        reply := NotFound("Secret not found");
      }
    }

    /** POST /api/secrets/:project/:config (server/secrets-api.js:50-77). */
    method Set(
      project: string, config: string, key: Option<string>, value: Option<string>, description: Option<string>,
      idSuffix: string, now: int)
      returns (reply: Reply<SetOutcome>)
      requires Valid()
      requires "sec_" + idSuffix !in Ids(rows)
      modifies this
      ensures Valid()
      ensures !Truthy(key) || value.None? ==> reply == BadRequest("Key and value are required") && rows == old(rows)
      ensures reply.Ok? <==> Truthy(key) && value.Some?
      ensures reply.Ok? ==>
        var k := SecretKey(project, config, key.value);
        && rows.Keys == old(rows).Keys + {k}
        && (forall k' :: k' in old(rows) && k' != k ==> rows[k'] == old(rows)[k'])
        && rows[k].value == value.value
        && rows[k].description == OrNull(description)
        && (k in old(rows) <==> reply.value == SetOutcome(None, Updated))
        && (k in old(rows) ==> rows[k] == old(rows)[k].(value := value.value, description := OrNull(description), updatedAt := Seconds(now)))
        && (k !in old(rows) ==>
              && reply.value == SetOutcome(Some("sec_" + idSuffix), Created)
              && rows[k] == SecretRow("sec_" + idSuffix, value.value, OrNull(description), Seconds(now), Seconds(now)))
    {
      if !Truthy(key) || value.None? {
        return BadRequest("Key and value are required");
      }
      var k := SecretKey(project, config, key.value);
      if k in rows {
        StoreRowKeepsIdsUnique(rows, k, rows[k].(value := value.value, description := OrNull(description), updatedAt := Seconds(now)));
        rows := rows[k := rows[k].(value := value.value, description := OrNull(description), updatedAt := Seconds(now))];
        reply := Ok(SetOutcome(None, Updated));
      } else {
        var id := "sec_" + idSuffix;
        StoreRowKeepsIdsUnique(rows, k, SecretRow(id, value.value, OrNull(description), Seconds(now), Seconds(now)));
        rows := rows[k := SecretRow(id, value.value, OrNull(description), Seconds(now), Seconds(now))];
        reply := Ok(SetOutcome(Some(id), Created));
      }
    }

    /** POST /api/secrets/:project/:config/bulk (server/secrets-api.js:80-111):
        a body that is not an object is refused; otherwise every entry is
        upserted in order, one result per entry. */
    method BulkSet(project: string, config: string, body: Option<seq<(string, string)>>, ids: seq<string>, now: int)
      returns (reply: Reply<seq<BulkResult>>)
      requires Valid()
      requires body.Some? ==> |ids| == |body.value|
      requires Distinct(ids) && forall i :: 0 <= i < |ids| ==> ids[i] !in Ids(rows)
      modifies this
      ensures Valid()
      ensures body.None? ==> reply == BadRequest("Object with key-value pairs required") && rows == old(rows)
      ensures body.Some? ==>
        var after := Bulk(old(rows), project, config, body.value, ids, Seconds(now));
        rows == after.0 && reply == Ok(after.1)
    {
      if body.None? {
        return BadRequest("Object with key-value pairs required");
      }
      var entries := body.value;
      ghost var before := rows;
      var results: seq<BulkResult> := [];
      var i := 0;
      while i < |entries|
        invariant 0 <= i <= |entries|
        invariant rows == Bulk(before, project, config, entries[..i], ids[..i], Seconds(now)).0
        invariant results == Bulk(before, project, config, entries[..i], ids[..i], Seconds(now)).1
      {
        BulkStep(before, project, config, entries, ids, Seconds(now), i);
        var k := SecretKey(project, config, entries[i].0);
        var result := BulkResultFor(rows, k, ids[i]);
        rows := BulkUpsert(rows, k, entries[i].1, ids[i], Seconds(now));
        results := results + [result];
        i := i + 1;
      }
      assert entries[..i] == entries && ids[..i] == ids;
      BulkKeepsIdsUnique(before, project, config, entries, ids, Seconds(now));
      reply := Ok(results);
    }

    /** DELETE /api/secrets/:project/:config/:key (server/secrets-api.js:114-125). */
    method Delete(project: string, config: string, key: string) returns (reply: Reply<()>)
      requires Valid()
      modifies this
      ensures Valid()
      ensures rows == old(rows) - {SecretKey(project, config, key)}
      ensures reply.Ok? <==> SecretKey(project, config, key) in old(rows)
      ensures !reply.Ok? ==> reply == NotFound("Secret not found")
    {
      var k := SecretKey(project, config, key);
      if k in rows {
        rows := rows - {k};
        reply := Ok(());
      } else {
        reply := NotFound("Secret not found");
      }
    }

    /** DELETE /api/secrets/:project/:config (server/secrets-api.js:128-135):
        always succeeds and reports how many rows went; other pairs stay. */
    method DeleteAll(project: string, config: string) returns (deleted: nat)
      requires Valid()
      modifies this
      ensures Valid()
      ensures rows == old(rows) - InConfig(old(rows), project, config)
      ensures deleted == |InConfig(old(rows), project, config)|
      ensures forall k :: k in old(rows) && (k.project != project || k.config != config) ==> k in rows && rows[k] == old(rows)[k]
      ensures InConfig(rows, project, config) == {}
    {
      var selected := InConfig(rows, project, config);
      rows := rows - selected;
      deleted := |selected|;
    }
  }
}
