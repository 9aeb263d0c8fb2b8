/** The CLI's secret loading (cli/src/utils/secrets.ts): the choice between
    Doppler and the local server, the extraction of Doppler's `computed`
    values, the local loader, and `parseEnvValue`.

    The `doppler` process and the HTTP request are oracles given as
    parameters: `run` maps the command line to the parsed JSON it printed
    (None when the process failed or its output was not JSON), and `fetch`
    maps a URL to what the server answered. */
module CliSecrets {
  import opened Common
  import opened Json
  import opened CliConfig

  // ---------------------------------------------------------------------
  // parseEnvValue (cli/src/utils/secrets.ts:93-106)

  /** `s.includes('\\n')`: a backslash immediately followed by `n`. */
  predicate HasEscapedNewline(s: string)
    decreases |s|
  {
    |s| >= 2 && ((s[0] == '\\' && s[1] == 'n') || HasEscapedNewline(s[1..]))
  }

  /** `s.replace(/\\n/g, '\n')`: left to right, each backslash-`n` pair
      becomes one newline. */
  function ReplaceEscapedNewlines(s: string): (r: string)
    ensures |r| <= |s|
    ensures |r| > 0 <==> |s| > 0
    decreases |s|
  {
    if |s| < 2 then s
    else if s[0] == '\\' && s[1] == 'n' then "\n" + ReplaceEscapedNewlines(s[2..])
    else [s[0]] + ReplaceEscapedNewlines(s[1..])
  }

  /** After the replacement no backslash-`n` pair is left. */
  lemma {:induction false} ReplaceLeavesNoEscape(s: string)
    ensures !HasEscapedNewline(ReplaceEscapedNewlines(s))
    decreases |s|
  {
    var r := ReplaceEscapedNewlines(s);
    if |s| >= 2 {
      if s[0] == '\\' && s[1] == 'n' {
        ReplaceLeavesNoEscape(s[2..]);
        assert r[1..] == ReplaceEscapedNewlines(s[2..]);
      } else {
        ReplaceLeavesNoEscape(s[1..]);
        assert r[1..] == ReplaceEscapedNewlines(s[1..]);
      }
    }
  }

  /** A text with no backslash-`n` pair is left as it is. */
  lemma {:induction false} ReplaceWithoutEscape(s: string)
    requires !HasEscapedNewline(s)
    ensures ReplaceEscapedNewlines(s) == s
    decreases |s|
  {
    if |s| >= 2 {
      ReplaceWithoutEscape(s[1..]);
      assert s == [s[0]] + s[1..];
    }
  }

  /** Replacing twice is replacing once. */
  lemma ReplaceIdempotent(s: string)
    ensures ReplaceEscapedNewlines(ReplaceEscapedNewlines(s)) == ReplaceEscapedNewlines(s)
  {
    ReplaceLeavesNoEscape(s);
    ReplaceWithoutEscape(ReplaceEscapedNewlines(s));
  }

  /** A character other than `n` appended to a text is kept after the
      replacement. */
  lemma {:induction false} ReplaceAppend(x: string, q: char)
    requires q != 'n'
    ensures ReplaceEscapedNewlines(x + [q]) == ReplaceEscapedNewlines(x) + [q]
    decreases |x|
  {
    if |x| >= 2 {
      if x[0] == '\\' && x[1] == 'n' {
        assert (x + [q])[2..] == x[2..] + [q];
        ReplaceAppend(x[2..], q);
      } else {
        assert (x + [q])[1..] == x[1..] + [q];
        ReplaceAppend(x[1..], q);
      }
    }
  }

  /** The value starts and ends with the same quote character, `"` or `'`
      (a lone quote character both starts and ends it). */
  predicate Quoted(v: string) {
    |v| >= 1 && ((v[0] == '"' && v[|v| - 1] == '"') || (v[0] == '\'' && v[|v| - 1] == '\''))
  }

  /** `value.slice(1, -1)` when the value is quoted. */
  function StripQuotes(v: string): (r: string)
    ensures |r| <= |v|
    ensures !Quoted(v) ==> r == v
    ensures Quoted(v) && |v| >= 2 ==> v == [v[0]] + r + [v[0]]
    ensures Quoted(v) && |v| == 1 ==> r == ""
  {
    if Quoted(v) then (if |v| >= 2 then v[1..|v| - 1] else "") else v
  }

  /** Exactly one pair of quotes is removed. */
  lemma StripQuotesOnePair(q: char, x: string)
    requires q == '"' || q == '\''
    ensures StripQuotes([q] + x + [q]) == x
  {
    var v := [q] + x + [q];
    assert v[1..|v| - 1] == x;
  }

  /** `parseEnvValue(value)`. */
  function ParseEnvValue(value: string): (r: string)
    ensures |r| <= |value|
  {
    var v := if HasEscapedNewline(value) then ReplaceEscapedNewlines(value) else value;
    StripQuotes(v)
  }

  /** The `includes` guard changes nothing: the value is the quotes stripped
      from the newline-converted text. */
  lemma ParseEnvValueIsStripOfReplace(value: string)
    ensures ParseEnvValue(value) == StripQuotes(ReplaceEscapedNewlines(value))
  {
    if !HasEscapedNewline(value) {
      ReplaceWithoutEscape(value);
    }
  }

  /** A quoted value parses to its inside with newlines converted. */
  lemma ParseEnvValueQuoted(q: char, x: string)
    requires q == '"' || q == '\''
    ensures ParseEnvValue([q] + x + [q]) == ReplaceEscapedNewlines(x)
  {
    ParseEnvValueIsStripOfReplace([q] + x + [q]);
    ReplaceQuoted(q, x);
    StripQuotesOnePair(q, ReplaceEscapedNewlines(x));
  }

  /** The quotes around a text are kept by the replacement. */
  lemma ReplaceQuoted(q: char, x: string)
    requires q == '"' || q == '\''
    ensures ReplaceEscapedNewlines([q] + x + [q]) == [q] + ReplaceEscapedNewlines(x) + [q]
  {
    ReplaceAppend(x, q);
    assert [q] + x + [q] == [q] + (x + [q]);
    ReplacePrepend(q, x + [q]);
  }

  /** A character other than a backslash put in front of a text is kept after
      the replacement. */
  lemma ReplacePrepend(q: char, y: string)
    requires q != '\\'
    ensures ReplaceEscapedNewlines([q] + y) == [q] + ReplaceEscapedNewlines(y)
  {
    if y != [] {
      assert ([q] + y)[1..] == y;
    }
  }

  // ---------------------------------------------------------------------
  // The Doppler `computed` extraction (cli/src/utils/secrets.ts:45-50)

  /** `typeof value === 'object' && value !== null && 'computed' in value`:
      an array has no `computed` property, so only an object qualifies. */
  predicate HasComputed(v: Json) {
    v.JObj? && HasKey(v.members, "computed")
  }

  function ComputedField(v: Json): Json
    requires HasComputed(v)
  {
    Lookup(v.members, "computed").value
  }

  /** The env built from the entries seen so far, visiting them in order. */
  function Computed(entries: Members): Members
    decreases |entries|
  {
    if entries == [] then []
    else
      var env := Computed(entries[..|entries| - 1]);
      var (k, v) := entries[|entries| - 1];
      if HasComputed(v) then Assign(env, k, ComputedField(v)) else env
  }

  /** The loop over `Object.entries(secrets)`. */
  method ExtractComputed(entries: Members) returns (env: Members)
    ensures env == Computed(entries)
  {
    env := [];
    for i := 0 to |entries|
      invariant env == Computed(entries[..i])
    {
      assert entries[..i + 1][..i] == entries[..i];
      var (k, v) := entries[i];
      if v.JObj? && HasKey(v.members, "computed") {
        env := Assign(env, k, Lookup(v.members, "computed").value);
      }
    }
    assert entries[..|entries|] == entries;
  }

  /** The extraction keeps exactly the keys whose value is an object with a
      `computed` property, and maps each to that property. */
  lemma {:induction false} ComputedLookup(entries: Members, k: string)
    requires UniqueKeys(entries)
    ensures Lookup(Computed(entries), k) ==
      if HasKey(entries, k) && HasComputed(Lookup(entries, k).value)
      then Some(ComputedField(Lookup(entries, k).value)) else None
    decreases |entries|
  {
    if entries != [] {
      var init := entries[..|entries| - 1];
      var last := entries[|entries| - 1];
      assert UniqueKeys(init);
      ComputedLookup(init, k);
      LookupLast(entries, k);
      if k == last.0 {
        forall i | 0 <= i < |init| ensures Keys(init)[i] != k {
          assert init[i] == entries[i];
        }
        assert !HasKey(init, k);
      }
    }
  }

  /** The extracted env has distinct names. */
  lemma {:induction false} ComputedKeepsUnique(entries: Members)
    ensures UniqueKeys(Computed(entries))
    decreases |entries|
  {
    if entries != [] {
      var init := entries[..|entries| - 1];
      ComputedKeepsUnique(init);
      var v := entries[|entries| - 1].1;
      if HasComputed(v) {
        AssignKeepsUnique(Computed(init), entries[|entries| - 1].0, ComputedField(v));
      }
    }
  }

  /** The decimal text of an array index or string position. */
  function Decimal(n: nat): (s: string)
    ensures |s| >= 1
    decreases n
  {
    if n < 10 then [(48 + n) as char] else Decimal(n / 10) + [(48 + n % 10) as char]
  }

  /** `Object.entries(secrets)`, or None when it throws (for `null`). An
      array's entries are its positions, a string's its characters; a
      number or a boolean has none. */
  function ObjectEntries(j: Json): (r: Option<Members>)
    ensures r.None? <==> j.JNull?
    ensures j.JObj? ==> r == Some(j.members)
  {
    match j
    case JNull => None
    case JBool(_) => Some([])
    case JNum(_) => Some([])
    case JStr(s) => Some(seq(|s|, i requires 0 <= i < |s| => (Decimal(i), JStr([s[i]]))))
    case JArr(items) => Some(seq(|items|, i requires 0 <= i < |items| => (Decimal(i), items[i])))
    case JObj(m) => Some(m)
  }

  // ---------------------------------------------------------------------
  // The loaders (cli/src/utils/secrets.ts:9-88)

  /** `--project` and `--config` as given, or missing. */
  datatype LoadOptions = LoadOptions(project: Option<string>, config: Option<string>)

  /** The secrets config: `options.config || 'dev'`. */
  function ConfigEnv(options: LoadOptions): (c: string)
    ensures Truthy(options.config) ==> c == options.config.value
    ensures !Truthy(options.config) ==> c == "dev"
  {
    OrElse(options.config, "dev")
  }

  /** `options.project || process.env.GREYZONE_PROJECT`. */
  function DopplerProject(options: LoadOptions, envProject: Option<string>): (p: Option<string>)
    ensures Truthy(options.project) ==> p == options.project
    ensures !Truthy(options.project) ==> p == envProject
  {
    if Truthy(options.project) then options.project else envProject
  }

  /** The arguments of `doppler`: `--project` only when a project is known,
      and always `--config`. */
  function DopplerArgs(options: LoadOptions, envProject: Option<string>): (args: seq<string>)
    ensures var project := DopplerProject(options, envProject);
      && |args| == (if Truthy(project) then 6 else 4)
      && args[..2] == ["secrets", "--json"]
      && args[|args| - 2..] == ["--config", ConfigEnv(options)]
      && (Truthy(project) ==> args[2..4] == ["--project", project.value])
  {
    var project := DopplerProject(options, envProject);
    ["secrets", "--json"] + (if Truthy(project) then ["--project", project.value] else []) + ["--config", ConfigEnv(options)]
  }

  /** The shell command `loadFromDoppler` runs. */
  function DopplerCommand(options: LoadOptions, envProject: Option<string>): string {
    "doppler " + Join(DopplerArgs(options, envProject), ' ')
  }

  /** What the request to the local server gave: no answer at all (or a
      body that is not JSON, as `None`), or a status and a body. */
  datatype FetchOutcome = Unreachable | Answer(status: int, body: Option<Json>)

  const DefaultServerUrl := "http://localhost:8080"

  /** `config.serverUrl || 'http://localhost:8080'`. */
  function ServerUrl(config: Members): (url: string)
    ensures NonEmptyText(Lookup(config, "serverUrl")) ==> url == Lookup(config, "serverUrl").value.s
    ensures !NonEmptyText(Lookup(config, "serverUrl")) ==> url == DefaultServerUrl
  {
    match Lookup(config, "serverUrl")
    case Some(JStr(s)) => if s != "" then s else DefaultServerUrl
    case _ => DefaultServerUrl
  }

  /** The address the local loader fetches, or None when no project was
      given (the loader then returns `{}` without a request). */
  function LocalUrl(config: Members, options: LoadOptions): (url: Option<string>)
    ensures url.Some? <==> Truthy(options.project)
    ensures url.Some? ==> url.value == ServerUrl(config) + "/api/secrets/" + options.project.value + "/" + ConfigEnv(options)
  {
    if Truthy(options.project) then
      Some(ServerUrl(config) + "/api/secrets/" + options.project.value + "/" + ConfigEnv(options))
    else None
  }

  /** The parsed body of a successful (2xx) answer; anything else throws and
      is caught. */
  function ServerData(outcome: FetchOutcome): (data: Option<Json>)
    ensures data.Some? <==> outcome.Answer? && 200 <= outcome.status <= 299 && outcome.body.Some?
    ensures data.Some? ==> data == outcome.body
  {
    if outcome.Answer? && 200 <= outcome.status <= 299 then outcome.body else None
  }

  /** `data.secrets || {}` (a `null` body throws and is caught, giving `{}`
      as well). */
  function SecretsField(data: Json): (r: Json)
    ensures Truthful(r)
  {
    if data.JObj? && HasKey(data.members, "secrets") && Truthful(Lookup(data.members, "secrets").value)
    then Lookup(data.members, "secrets").value
    else JObj([])
  }

  /** `loadFromLocal` as written: the `secrets` property of the answer. */
  function LoadFromLocalAsWritten(config: Members, options: LoadOptions, fetch: string -> FetchOutcome): (r: Json)
  {
    var url := LocalUrl(config, options);
    if url.None? then JObj([])
    else
      var data := ServerData(fetch(url.value));
      if data.None? then JObj([]) else SecretsField(data.value)
  }

  /** `loadFromLocal` reading the answer the server sends: the object of
      key-value pairs itself. */
  function LoadFromLocal(config: Members, options: LoadOptions, fetch: string -> FetchOutcome): (r: Members)
  {
    var url := LocalUrl(config, options);
    if url.None? then []
    else
      var data := ServerData(fetch(url.value));
      if data.Some? && data.value.JObj? then data.value.members else []
  }

  /** The local loader gives `{}` without a project; with one, it gives the
      key-value pairs of a 2xx answer whose body is an object, and `{}` for
      an unreachable server, another status, or any other body. */
  lemma LoadFromLocalCases(config: Members, options: LoadOptions, fetch: string -> FetchOutcome)
    ensures !Truthy(options.project) ==> LoadFromLocal(config, options, fetch) == []
    ensures Truthy(options.project) ==>
      var outcome := fetch(LocalUrl(config, options).value);
      var answered := outcome.Answer? && 200 <= outcome.status <= 299 && outcome.body.Some? && outcome.body.value.JObj?;
      && (answered ==> LoadFromLocal(config, options, fetch) == outcome.body.value.members)
      && (!answered ==> LoadFromLocal(config, options, fetch) == [])
  {
  }

  /** Without a project the loader makes no request: its result does not
      depend on what the server would answer. */
  lemma LoadFromLocalNeedsProject(config: Members, options: LoadOptions, f: string -> FetchOutcome, g: string -> FetchOutcome)
    requires !Truthy(options.project)
    ensures LoadFromLocal(config, options, f) == LoadFromLocal(config, options, g) == []
    ensures LoadFromLocalAsWritten(config, options, f) == LoadFromLocalAsWritten(config, options, g) == JObj([])
  {
  }

  /** As written, an answer the server sends (an object of key-value pairs
      with no key named `secrets`) loads as `{}`, while the server's secrets
      were those pairs. */
  lemma LoadFromLocalAsWrittenDropsSecrets(
    config: Members, options: LoadOptions, fetch: string -> FetchOutcome, pairs: Members)
    requires Truthy(options.project)
    requires fetch(LocalUrl(config, options).value) == Answer(200, Some(JObj(pairs)))
    requires !HasKey(pairs, "secrets")
    ensures LoadFromLocalAsWritten(config, options, fetch) == JObj([])
    ensures LoadFromLocal(config, options, fetch) == pairs
  {
  }

  /** A concrete instance: the server holds API_KEY=abc for the project. */
  lemma LoadFromLocalAsWrittenExample()
    ensures var options := LoadOptions(Some("greyzone"), None);
      var pairs := [("API_KEY", JStr("abc"))];
      var fetch := (url: string) => Answer(200, Some(JObj(pairs)));
      && LoadFromLocalAsWritten(DefaultConfig, options, fetch) == JObj([])
      && LoadFromLocal(DefaultConfig, options, fetch) == pairs
  {
    var pairs := [("API_KEY", JStr("abc"))];
    assert Keys(pairs) == ["API_KEY"];
    assert !HasKey(pairs, "secrets");
  }

  /** `loadFromDoppler`: the `computed` values of what `doppler` printed, or
      the local loader when the command or the parse failed or
      `Object.entries` threw. */
  function LoadFromDoppler(
    config: Members, options: LoadOptions, envProject: Option<string>,
    run: string -> Option<Json>, fetch: string -> FetchOutcome): (r: Members)
  {
    var printed := run(DopplerCommand(options, envProject));
    var entries := if printed.Some? then ObjectEntries(printed.value) else None;
    if entries.Some? then Computed(entries.value) else LoadFromLocal(config, options, fetch)
  }

  /** `config.storage === 'doppler'` (the `|| 'local'` default never equals
      `doppler`). */
  predicate UsesDoppler(config: Members) {
    Lookup(config, "storage") == Some(JStr("doppler"))
  }

  /** `loadSecrets(options)` on the config read from `file`. */
  function LoadSecrets(
    file: ConfigFile, options: LoadOptions, envProject: Option<string>,
    run: string -> Option<Json>, fetch: string -> FetchOutcome): (r: Members)
  {
    var config := GetConfig(file);
    if UsesDoppler(config) then LoadFromDoppler(config, options, envProject, run, fetch)
    else LoadFromLocal(config, options, fetch)
  }

  /** Doppler is used exactly when the config file sets `storage` to
      `doppler`; the default storage is local. */
  lemma UsesDopplerIff(file: ConfigFile)
    requires WellFormed(file)
    ensures UsesDoppler(GetConfig(file)) <==>
      file.Parsed? && Lookup(file.members, "storage") == Some(JStr("doppler"))
  {
    GetConfigFields(file, "storage");
    assert Lookup(DefaultConfig, "storage") == Some(JStr("local"));
  }

  /** The dispatch: local storage uses the local loader; Doppler storage uses
      the extracted `computed` values when `doppler` printed an object, and
      falls back to the local loader when it failed or printed `null`. */
  lemma LoadSecretsDispatch(
    file: ConfigFile, options: LoadOptions, envProject: Option<string>,
    run: string -> Option<Json>, fetch: string -> FetchOutcome)
    ensures var config := GetConfig(file);
      var printed := run(DopplerCommand(options, envProject));
      && (!UsesDoppler(config) ==> LoadSecrets(file, options, envProject, run, fetch) == LoadFromLocal(config, options, fetch))
      && (UsesDoppler(config) && (printed.None? || printed == Some(JNull)) ==>
            LoadSecrets(file, options, envProject, run, fetch) == LoadFromLocal(config, options, fetch))
      && (UsesDoppler(config) && printed.Some? && printed.value.JObj? ==>
            LoadSecrets(file, options, envProject, run, fetch) == Computed(printed.value.members))
  {
  }

  /** The fallback asks the local server with `--project` only: the
      `GREYZONE_PROJECT` variable that Doppler honours is not consulted. */
  lemma FallbackIgnoresEnvProject(
    config: Members, options: LoadOptions, envProject: Option<string>,
    run: string -> Option<Json>, fetch: string -> FetchOutcome)
    requires run(DopplerCommand(options, envProject)).None?
    requires !Truthy(options.project)
    ensures LoadFromDoppler(config, options, envProject, run, fetch) == []
  {
  }
}
