/** `greyzone run -- <command>` (cli/src/commands/run.ts): the `-e KEY=VALUE`
    entries, the three-layer environment, and what is spawned. */
module CliRun {
  import opened Common
  import opened Json
  import opened CliConfig
  import opened CliSecrets

  /** `const [key, ...valueParts] = e.split('='); valueParts.join('=')`. */
  function ParseEntry(e: string): (kv: (string, string))
  {
    var parts := Split(e, '=');
    (parts[0], Join(parts[1..], '='))
  }

  /** The key is the text before the first `=` and the value everything after
      it, later `=` included; an entry with no `=` is a key with the empty
      value. */
  lemma ParseEntryAtFirstEquals(e: string, i: nat)
    requires i < |e| && e[i] == '=' && '=' !in e[..i]
    ensures ParseEntry(e) == (e[..i], e[i + 1..])
  {
    SplitAtFirst(e, '=', i);
  }

  lemma ParseEntryWithoutEquals(e: string)
    requires '=' !in e
    ensures ParseEntry(e) == (e, "")
  {
    SplitNoSeparator(e, '=');
  }

  /** The `cliEnv` object after the entries seen so far, in order. */
  function CliEnvSpec(entries: seq<string>): Members
    decreases |entries|
  {
    if entries == [] then []
    else
      var (k, v) := ParseEntry(entries[|entries| - 1]);
      Assign(CliEnvSpec(entries[..|entries| - 1]), k, JStr(v))
  }

  /** The loop over `options.env` (cli/src/commands/run.ts:27-33); no `-e`
      at all leaves `cliEnv` empty. */
  method BuildCliEnv(env: Option<seq<string>>) returns (cliEnv: Members)
    ensures env.None? ==> cliEnv == []
    ensures env.Some? ==> cliEnv == CliEnvSpec(env.value)
  {
    cliEnv := [];
    if env.Some? {
      var entries := env.value;
      for i := 0 to |entries|
        invariant cliEnv == CliEnvSpec(entries[..i])
      {
        assert entries[..i + 1][..i] == entries[..i];
        var parts := Split(entries[i], '=');
        cliEnv := Assign(cliEnv, parts[0], JStr(Join(parts[1..], '=')));
      }
      assert entries[..|entries|] == entries;
    }
  }

  /** The last entry assigns its key and leaves every other key as it was. */
  lemma CliEnvStep(entries: seq<string>, k: string)
    requires entries != []
    ensures var last := ParseEntry(entries[|entries| - 1]);
      Lookup(CliEnvSpec(entries), k) ==
        if last.0 == k then Some(JStr(last.1)) else Lookup(CliEnvSpec(entries[..|entries| - 1]), k)
  {
  }

  /** The last entry for a key decides its value. */
  lemma {:induction false} CliEnvLastWins(entries: seq<string>, j: nat, k: string)
    requires j < |entries| && ParseEntry(entries[j]).0 == k
    requires forall j' :: j < j' < |entries| ==> ParseEntry(entries[j']).0 != k
    ensures Lookup(CliEnvSpec(entries), k) == Some(JStr(ParseEntry(entries[j]).1))
    decreases |entries|
  {
    var n := |entries| - 1;
    var init := entries[..n];
    var entry := ParseEntry(entries[j]);
    CliEnvStep(entries, k);
    if j < n {
      assert ParseEntry(entries[n]).0 != k;
      assert init[j] == entries[j];
      forall j' | j < j' < |init| ensures ParseEntry(init[j']).0 != k {
        assert init[j'] == entries[j'];
      }
      CliEnvLastWins(init, j, k);
      assert Lookup(CliEnvSpec(init), k) == Some(JStr(entry.1));
    } else {
      assert ParseEntry(entries[n]) == entry;
    }
  }

  /** A key no entry names is absent. */
  lemma {:induction false} CliEnvAbsent(entries: seq<string>, k: string)
    requires forall j :: 0 <= j < |entries| ==> ParseEntry(entries[j]).0 != k
    ensures Lookup(CliEnvSpec(entries), k) == None
    decreases |entries|
  {
    if entries != [] {
      var init := entries[..|entries| - 1];
      forall j | 0 <= j < |init| ensures ParseEntry(init[j]).0 != k {
        assert init[j] == entries[j];
      }
      CliEnvAbsent(init, k);
    }
  }

  lemma {:induction false} CliEnvKeepsUnique(entries: seq<string>)
    ensures UniqueKeys(CliEnvSpec(entries))
    decreases |entries|
  {
    if entries != [] {
      var init := entries[..|entries| - 1];
      CliEnvKeepsUnique(init);
      var (k, v) := ParseEntry(entries[|entries| - 1]);
      AssignKeepsUnique(CliEnvSpec(init), k, JStr(v));
    }
  }

  /** `{...process.env, ...secrets, ...cliEnv}`. */
  function MergeEnv(processEnv: Members, secrets: Members, cliEnv: Members): Members {
    Overlay(Overlay(processEnv, secrets), cliEnv)
  }

  /** A variable comes from the `-e` entries first, else from the loaded
      secrets, else from the process environment. */
  lemma MergeEnvPrecedence(processEnv: Members, secrets: Members, entries: seq<string>, k: string)
    requires UniqueKeys(secrets)
    ensures Lookup(MergeEnv(processEnv, secrets, CliEnvSpec(entries)), k) ==
      if HasKey(CliEnvSpec(entries), k) then Lookup(CliEnvSpec(entries), k)
      else if HasKey(secrets, k) then Lookup(secrets, k)
      else Lookup(processEnv, k)
  {
    CliEnvKeepsUnique(entries);
    OverlayLookup(Overlay(processEnv, secrets), CliEnvSpec(entries), k);
    OverlayLookup(processEnv, secrets, k);
  }

  /** The options of `greyzone run`. */
  datatype RunOptions = RunOptions(project: Option<string>, config: Option<string>, env: Option<seq<string>>)

  /** What `runCommand` does: exit with a usage error, or spawn the first
      argument with the rest in the merged environment. With `shell: true`
      the words are joined with spaces into one shell command line. */
  datatype RunOutcome = UsageError(exitCode: int) | Spawned(cmd: string, args: seq<string>, env: Members)

  /** The options `runCommand` passes to `loadSecrets`. */
  function SecretsOptions(options: RunOptions): (o: LoadOptions)
    ensures o.project == options.project && Truthy(o.config)
    ensures ConfigEnv(o) == OrElse(options.config, "dev")
  {
    LoadOptions(options.project, Some(OrElse(options.config, "dev")))
  }

  /** `runCommand(options, command)` with the config file, the
      `GREYZONE_PROJECT` variable and the process environment it sees. */
  function RunCommand(
    options: RunOptions, args: seq<string>, processEnv: Members,
    file: ConfigFile, envProject: Option<string>,
    run: string -> Option<Json>, fetch: string -> FetchOutcome): (r: RunOutcome)
  {
    if args == [] then UsageError(1)
    else
      var secrets := LoadSecrets(file, SecretsOptions(options), envProject, run, fetch);
      var cliEnv := if options.env.Some? then CliEnvSpec(options.env.value) else [];
      Spawned(args[0], args[1..], MergeEnv(processEnv, secrets, cliEnv))
  }

  /** With no command the CLI exits 1 before any secret is loaded: what
      Doppler or the server would say makes no difference. */
  lemma RunWithoutCommand(
    options: RunOptions, processEnv: Members, file: ConfigFile, envProject: Option<string>,
    run: string -> Option<Json>, fetch: string -> FetchOutcome,
    run': string -> Option<Json>, fetch': string -> FetchOutcome)
    ensures RunCommand(options, [], processEnv, file, envProject, run, fetch) == UsageError(1)
    ensures RunCommand(options, [], processEnv, file, envProject, run, fetch) ==
            RunCommand(options, [], processEnv, file, envProject, run', fetch')
  {
  }

  /** With a command, the child runs `args[0]` with `args[1..]` and each
      variable is taken from `-e` (no entries when the option is absent),
      else from the secrets loaded for the
      project and the config (default `dev`), else from the process. */
  lemma RunSpawnsWithMergedEnv(
    options: RunOptions, args: seq<string>, processEnv: Members, file: ConfigFile, envProject: Option<string>,
    run: string -> Option<Json>, fetch: string -> FetchOutcome, k: string)
    requires args != []
    requires UniqueKeys(LoadSecrets(file, SecretsOptions(options), envProject, run, fetch))
    ensures var r := RunCommand(options, args, processEnv, file, envProject, run, fetch);
      var secrets := LoadSecrets(file, SecretsOptions(options), envProject, run, fetch);
      var cliEnv := if options.env.Some? then CliEnvSpec(options.env.value) else [];
      && r.Spawned? && r.cmd == args[0] && r.args == args[1..]
      && Lookup(r.env, k) ==
           if HasKey(cliEnv, k) then Lookup(cliEnv, k)
           else if HasKey(secrets, k) then Lookup(secrets, k)
           else Lookup(processEnv, k)
  {
    MergeEnvPrecedence(processEnv, LoadSecrets(file, SecretsOptions(options), envProject, run, fetch),
                       if options.env.Some? then options.env.value else [], k);
  }

  /** How the child ended: with an exit code (None when a signal killed
      it), or with a spawn error. */
  datatype ChildEnd = Exited(code: Option<int>) | SpawnError

  /** The CLI's own exit status: `code || 0`, and 1 on a spawn error. */
  function ExitStatus(end: ChildEnd): (status: int)
    ensures end.SpawnError? ==> status == 1
    ensures end.Exited? && end.code.Some? ==> status == end.code.value
    ensures end.Exited? && end.code.None? ==> status == 0
  {
    match end
    case SpawnError => 1
    case Exited(code) => if code.Some? && code.value != 0 then code.value else 0
  }
}
