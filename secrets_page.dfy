/** The secrets page of the web UI (web-v2/src/pages/Secrets.tsx): how a
    value is masked for display, and how the entries of the server's
    Doppler answer become rows of the page. */
module SecretsPage {
  import opened Common
  import opened Json

  // ---------------------------------------------------------------------
  // maskValue (web-v2/src/pages/Secrets.tsx:131-135)

  const Bullet: char := '\U{2022}'

  /** Eight bullets: the mask of a value too short to show any of. */
  const Hidden: string := [Bullet, Bullet, Bullet, Bullet, Bullet, Bullet, Bullet, Bullet]

  /** `maskValue(value)`: an empty value or one of at most 8 characters is
      eight bullets; a longer one keeps its first and last four characters
      around four bullets. */
  function MaskValue(value: string): (r: string)
    ensures |r| == 8 || |r| == 12
    ensures |value| <= 8 ==> r == Hidden
    ensures |value| > 8 ==> |r| == 12 && r[..4] == value[..4] && r[8..] == value[|value| - 4..]
    ensures forall i :: 4 <= i < 8 ==> r[i] == Bullet
  {
    if value == "" then Hidden
    else if |value| <= 8 then Hidden
    else value[..4] + [Bullet, Bullet, Bullet, Bullet] + value[|value| - 4..]
  }

  /** The mask of a value longer than 8 is decided by its first and last four
      characters alone: nothing else of the value leaks. */
  lemma MaskDependsOnlyOnEnds(a: string, b: string)
    requires |a| > 8 && |b| > 8
    requires a[..4] == b[..4] && a[|a| - 4..] == b[|b| - 4..]
    ensures MaskValue(a) == MaskValue(b)
  {
  }

  /** Values of at most 8 characters cannot be told apart by their masks. */
  lemma ShortValuesMaskAlike(a: string, b: string)
    requires |a| <= 8 && |b| <= 8
    ensures MaskValue(a) == MaskValue(b) == Hidden
  {
  }

  /** Each character of the mask is a bullet or a character of the value at
      one of at most eight positions: its first four and its last four. */
  lemma MaskRevealsAtMostEight(value: string, i: nat)
    requires i < |MaskValue(value)|
    ensures MaskValue(value)[i] == Bullet ||
      (|value| > 8 && ((i < 4 && MaskValue(value)[i] == value[i]) || (8 <= i && MaskValue(value)[i] == value[|value| - 12 + i])))
  {
    var r := MaskValue(value);
    if |value| > 8 && 8 <= i {
      assert r[8..][i - 8] == r[i];
    }
  }

  // ---------------------------------------------------------------------
  // The Doppler rows (web-v2/src/pages/Secrets.tsx:51-77)

  datatype Source = Local | DopplerSource

  /** A row of the page. `key` and `value` are the entry's `s.key` and
      `s.value`, None when the entry has no such property. */
  datatype SecretRow = SecretRow(project: string, config: string, key: Option<Json>, value: Option<Json>, source: Source)

  /** The page's config state before `/api/config` has answered
      (web-v2/src/pages/Secrets.tsx:26). */
  const InitialConfig: Members := [("storage", JStr("local"))]

  /** `config.doppler?.<field>`: None when `doppler` is missing or not an
      object, or lacks the field. */
  function DopplerField(config: Members, field: string): (v: Option<Json>)
    ensures !HasKey(config, "doppler") ==> v.None?
  {
    match Lookup(config, "doppler")
    case Some(JObj(d)) => Lookup(d, field)
    case _ => None
  }

  /** `config.doppler?.<field> || fallback` for a string field. */
  function DopplerLabel(config: Members, field: string, fallback: string): (text: string)
    ensures NonEmptyText(DopplerField(config, field)) ==> text == DopplerField(config, field).value.s
    ensures !NonEmptyText(DopplerField(config, field)) ==> text == fallback
  {
    var v := DopplerField(config, field);
    if NonEmptyText(v) then v.value.s else fallback
  }

  /** `Object.values(data)`, or None when it throws (for `null`). */
  function ObjectValues(j: Json): (r: Option<seq<Json>>)
    ensures r.None? <==> j.JNull?
    ensures j.JObj? ==> r.value == seq(|j.members|, i requires 0 <= i < |j.members| => j.members[i].1)
  {
    match j
    case JNull => None
    case JBool(_) => Some([])
    case JNum(_) => Some([])
    case JStr(s) => Some(seq(|s|, i requires 0 <= i < |s| => JStr([s[i]])))
    case JArr(items) => Some(items)
    case JObj(m) => Some(seq(|m|, i requires 0 <= i < |m| => m[i].1))
  }

  /** `s.<name>` of a value that is not `null`. */
  function Property(s: Json, name: string): Option<Json> {
    if s.JObj? then Lookup(s.members, name) else None
  }

  /** The answer carries a truthy `error` property. */
  predicate IsError(data: Json) {
    data.JObj? && HasKey(data.members, "error") && Truthful(Lookup(data.members, "error").value)
  }

  /** The rows `fetchDopplerSecrets` sets, reading labels from `config`:
      none when the body is not JSON, is `null`, carries an error, or holds a
      `null` entry (whose `s.key` throws); otherwise one row per entry. */
  function DopplerRows(config: Members, body: Option<Json>): (rows: seq<SecretRow>)
    ensures body.None? || body == Some(JNull) || (body.Some? && IsError(body.value)) ==> rows == []
  {
    if body.None? || body.value.JNull? || IsError(body.value) then []
    else
      var values := ObjectValues(body.value).value;
      if exists i :: 0 <= i < |values| && values[i].JNull? then []
      else
        seq(|values|, i requires 0 <= i < |values| =>
          SecretRow(DopplerLabel(config, "project", "doppler"), DopplerLabel(config, "config", "dev"),
            Property(values[i], "key"), Property(values[i], "value"), DopplerSource))
  }

  /** Each entry of a well-formed answer gives one row, in order, labelled
      with the config's Doppler project and config (defaults `doppler` and
      `dev`) and the source `doppler`. */
  lemma DopplerRowsOfEntries(config: Members, entries: Members, i: nat)
    requires !IsError(JObj(entries))
    requires forall j :: 0 <= j < |entries| ==> !entries[j].1.JNull?
    requires i < |entries|
    ensures var rows := DopplerRows(config, Some(JObj(entries)));
      && |rows| == |entries|
      && rows[i] == SecretRow(DopplerLabel(config, "project", "doppler"), DopplerLabel(config, "config", "dev"),
           Property(entries[i].1, "key"), Property(entries[i].1, "value"), DopplerSource)
  {
    var values := ObjectValues(JObj(entries)).value;
    assert forall j :: 0 <= j < |values| ==> values[j] == entries[j].1;
  }

  /** As written, `fetchDopplerSecrets` reads `config` from the render that
      started the fetch, which is still the initial state. */
  function DopplerRowsAsWritten(fetched: Members, body: Option<Json>): seq<SecretRow> {
    DopplerRows(InitialConfig, body)
  }

  /** Whatever the server's config says, the rows as written are labelled
      `doppler` / `dev`. */
  lemma DopplerRowsAsWrittenIgnoreConfig(fetched: Members, body: Option<Json>, i: nat)
    requires i < |DopplerRowsAsWritten(fetched, body)|
    ensures DopplerRowsAsWritten(fetched, body)[i].project == "doppler"
    ensures DopplerRowsAsWritten(fetched, body)[i].config == "dev"
  {
    assert !HasKey(InitialConfig, "doppler");
  }

  /** Labelled from the config the page fetched, rows carry its Doppler
      project. */
  lemma DopplerRowsUseConfig(fetched: Members, d: Members, project: string, body: Option<Json>, i: nat)
    requires Lookup(fetched, "doppler") == Some(JObj(d))
    requires Lookup(d, "project") == Some(JStr(project)) && project != ""
    requires i < |DopplerRows(fetched, body)|
    ensures DopplerRows(fetched, body)[i].project == project
  {
  }

  /** A concrete instance: the server is configured for Doppler project
      `shop`, and its answer holds one secret `A`. */
  lemma StaleConfigExample()
    ensures var fetched := [("storage", JStr("doppler")), ("doppler", JObj([("project", JStr("shop"))]))];
      var body := Some(JObj([("A", JObj([("key", JStr("A")), ("value", JStr("x...")), ("source", JStr("doppler"))]))]));
      && |DopplerRowsAsWritten(fetched, body)| == 1 && DopplerRowsAsWritten(fetched, body)[0].project == "doppler"
      && |DopplerRows(fetched, body)| == 1 && DopplerRows(fetched, body)[0].project == "shop"
  {
    var fetched := [("storage", JStr("doppler")), ("doppler", JObj([("project", JStr("shop"))]))];
    var entry := JObj([("key", JStr("A")), ("value", JStr("x...")), ("source", JStr("doppler"))]);
    var entries := [("A", entry)];
    assert Keys(entries) == ["A"];
    assert !IsError(JObj(entries));
    DopplerRowsOfEntries(InitialConfig, entries, 0);
    DopplerRowsOfEntries(fetched, entries, 0);
    assert Lookup(fetched, "doppler") == Some(JObj([("project", JStr("shop"))]));
    assert !HasKey(InitialConfig, "doppler");
  }
}
