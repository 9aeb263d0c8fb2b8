/** `greyzone secrets` (cli/src/commands/secrets.ts): the loaded secrets
    printed as JSON or as `KEY="escaped"` lines. */
module CliSecretsCommand {
  import opened Common
  import opened Json
  import opened CliConfig
  import opened CliSecrets

  // ---------------------------------------------------------------------
  // Escaping (cli/src/commands/secrets.ts:23-26)

  /** `s.replace(/c/g, rep)` for a one-character pattern. */
  function ReplaceChar(s: string, c: char, rep: string): (r: string)
    decreases |s|
  {
    if s == [] then [] else (if s[0] == c then rep else [s[0]]) + ReplaceChar(s[1..], c, rep)
  }

  lemma {:induction false} ReplaceCharConcat(a: string, b: string, c: char, rep: string)
    ensures ReplaceChar(a + b, c, rep) == ReplaceChar(a, c, rep) + ReplaceChar(b, c, rep)
    decreases |a|
  {
    if a != [] {
      assert (a + b)[0] == a[0] && (a + b)[1..] == a[1..] + b;
      ReplaceCharConcat(a[1..], b, c, rep);
    } else {
      assert a + b == b;
    }
  }

  /** The three replacements in the order the CLI applies them: backslash
      first, then `"`, then newline. */
  function Escape(v: string): string {
    ReplaceChar(ReplaceChar(ReplaceChar(v, '\\', "\\\\"), '"', "\\\""), '\n', "\\n")
  }

  /** The escape of one character, as a reference definition. */
  function EscapeChar(ch: char): (e: string)
    ensures 1 <= |e| <= 2 && '\n' !in e
    ensures |e| == 2 <==> ch == '\\' || ch == '"' || ch == '\n'
    ensures |e| == 1 ==> e == [ch]
    ensures |e| == 2 ==> e[0] == '\\'
  {
    if ch == '\\' then "\\\\" else if ch == '"' then "\\\"" else if ch == '\n' then "\\n" else [ch]
  }

  /** Character by character escaping. */
  function EscapeEach(v: string): string
    decreases |v|
  {
    if v == [] then [] else EscapeChar(v[0]) + EscapeEach(v[1..])
  }

  /** Because backslashes are doubled before the other replacements add
      theirs, the chain of replacements escapes each character on its own. */
  lemma {:induction false} EscapeIsPerCharacter(v: string)
    ensures Escape(v) == EscapeEach(v)
    decreases |v|
  {
    if v != [] {
      var head, rest := [v[0]], v[1..];
      assert v == head + rest;
      ReplaceCharConcat(head, rest, '\\', "\\\\");
      var r1h, r1t := ReplaceChar(head, '\\', "\\\\"), ReplaceChar(rest, '\\', "\\\\");
      ReplaceCharConcat(r1h, r1t, '"', "\\\"");
      var r2h, r2t := ReplaceChar(r1h, '"', "\\\""), ReplaceChar(r1t, '"', "\\\"");
      ReplaceCharConcat(r2h, r2t, '\n', "\\n");
      assert Escape(v) == Escape(head) + Escape(rest);
      EscapeIsPerCharacter(rest);
      assert Escape(head) == EscapeChar(v[0]) by {
        if v[0] == '\\' {
          assert r1h == "\\\\";
          assert r2h == [r1h[0]] + ReplaceChar(r1h[1..], '"', "\\\"");
        } else if v[0] == '"' {
          assert r2h == "\\\"";
          assert Escape(head) == [r2h[0]] + ReplaceChar(r2h[1..], '\n', "\\n");
        }
      }
    }
  }

  /** Unescaping left to right: `\\`, `\"` and `\n` become backslash, quote
      and newline; anything else is kept. */
  function Unescape(s: string): string
    decreases |s|
  {
    if s == [] then []
    else if |s| >= 2 && s[0] == '\\' && s[1] == '\\' then "\\" + Unescape(s[2..])
    else if |s| >= 2 && s[0] == '\\' && s[1] == '"' then "\"" + Unescape(s[2..])
    else if |s| >= 2 && s[0] == '\\' && s[1] == 'n' then "\n" + Unescape(s[2..])
    else [s[0]] + Unescape(s[1..])
  }

  lemma {:induction false} UnescapeEscapeEach(v: string)
    ensures Unescape(EscapeEach(v)) == v
    decreases |v|
  {
    if v != [] {
      var e := EscapeEach(v);
      var h := EscapeChar(v[0]);
      UnescapeEscapeEach(v[1..]);
      assert e[|h|..] == EscapeEach(v[1..]);
      assert v == [v[0]] + v[1..];
    }
  }

  /** Round trip: unescaping gives the value back. */
  lemma UnescapeEscape(v: string)
    ensures Unescape(Escape(v)) == v
  {
    EscapeIsPerCharacter(v);
    UnescapeEscapeEach(v);
  }

  /** Distinct values have distinct escapes. */
  lemma EscapeInjective(a: string, b: string)
    requires Escape(a) == Escape(b)
    ensures a == b
  {
    UnescapeEscape(a);
    UnescapeEscape(b);
  }

  lemma {:induction false} EscapeEachBounds(v: string)
    ensures '\n' !in EscapeEach(v)
    ensures |EscapeEach(v)| >= |v|
    decreases |v|
  {
    if v != [] {
      EscapeEachBounds(v[1..]);
    }
  }

  /** The escaped value holds no newline and is at least as long as the
      value. */
  lemma EscapeBounds(v: string)
    ensures '\n' !in Escape(v)
    ensures |Escape(v)| >= |v|
  {
    EscapeIsPerCharacter(v);
    EscapeEachBounds(v);
  }

  // ---------------------------------------------------------------------
  // The output (cli/src/commands/secrets.ts:9-30)

  /** One printed line: `${key}="${escapedValue}"`. */
  function EnvLine(key: string, value: string): string {
    key + "=\"" + Escape(value) + "\""
  }

  /** A line reads back: the key up to the first `=`, and between the quotes
      the escaped value; a key without newlines gives a single line. */
  lemma EnvLineReadsBack(key: string, value: string)
    requires '=' !in key
    ensures var l := EnvLine(key, value);
      && |l| >= |key| + 3
      && l[..|key|] == key && l[|key|] == '=' && l[|key| + 1] == '"' && l[|l| - 1] == '"'
      && Unescape(l[|key| + 2..|l| - 1]) == value
      && ('\n' !in key ==> '\n' !in l)
  {
    var l := EnvLine(key, value);
    assert l[|key| + 2..|l| - 1] == Escape(value);
    UnescapeEscape(value);
    EscapeBounds(value);
    assert forall i :: 0 <= i < |l| ==> l[i] in key || l[i] in Escape(value) || l[i] == '=' || l[i] == '"' by {
      forall i | 0 <= i < |l| ensures l[i] in key || l[i] in Escape(value) || l[i] == '=' || l[i] == '"' {
        if i < |key| {
          assert l[i] == key[i];
        } else if |key| + 2 <= i < |l| - 1 {
          assert l[i] == Escape(value)[i - |key| - 2];
        }
      }
    }
  }

  /** What the command prints: the secrets as JSON, or the env lines. The
      env loop throws at the first value that is not a string (it has no
      `replace`); `complete` is false then, and `lines` holds what was
      printed before. */
  datatype Output = JsonOutput(secrets: Members) | EnvOutput(lines: seq<string>, complete: bool)

  /** The env lines for `secrets`, in entry order. */
  method EnvFormat(secrets: Members) returns (lines: seq<string>, complete: bool)
    ensures complete <==> forall j :: 0 <= j < |secrets| ==> secrets[j].1.JStr?
    ensures complete ==> |lines| == |secrets|
    ensures !complete ==> |lines| < |secrets| && !secrets[|lines|].1.JStr?
    ensures forall j :: 0 <= j < |lines| ==> secrets[j].1.JStr? && lines[j] == EnvLine(secrets[j].0, secrets[j].1.s)
  {
    lines := [];
    for i := 0 to |secrets|
      invariant |lines| == i
      invariant forall j :: 0 <= j < i ==> secrets[j].1.JStr? && lines[j] == EnvLine(secrets[j].0, secrets[j].1.s)
    {
      var (key, value) := secrets[i];
      if !value.JStr? {
        return lines, false;
      }
      lines := lines + [EnvLine(key, value.s)];
    }
    complete := true;
  }

  /** The options of `greyzone secrets`. */
  datatype CommandOptions = CommandOptions(project: Option<string>, config: Option<string>, format: Option<string>)

  /** `options.format || 'env'`. */
  function Format(options: CommandOptions): (f: string)
    ensures Truthy(options.format) ==> f == options.format.value
    ensures !Truthy(options.format) ==> f == "env"
  {
    OrElse(options.format, "env")
  }

  /** `secretsCommand(options)`: the secrets are loaded for the project and
      the config (default `dev`) and printed in the chosen format; any
      format other than `json` prints env lines. */
  method SecretsCommand(
    options: CommandOptions, file: ConfigFile, envProject: Option<string>,
    run: string -> Option<Json>, fetch: string -> FetchOutcome)
    returns (out: Output)
    ensures var secrets := LoadSecrets(file, LoadOptions(options.project, Some(OrElse(options.config, "dev"))), envProject, run, fetch);
      && (Format(options) == "json" ==> out == JsonOutput(secrets))
      && (Format(options) != "json" ==>
            && out.EnvOutput?
            && |out.lines| <= |secrets|
            && (out.complete <==> forall j :: 0 <= j < |secrets| ==> secrets[j].1.JStr?)
            && (out.complete ==> |out.lines| == |secrets|)
            && (forall j :: 0 <= j < |out.lines| ==> secrets[j].1.JStr? && out.lines[j] == EnvLine(secrets[j].0, secrets[j].1.s)))
  {
    var secrets := LoadSecrets(file, LoadOptions(options.project, Some(OrElse(options.config, "dev"))), envProject, run, fetch);
    if OrElse(options.format, "env") == "json" {
      out := JsonOutput(secrets);
    } else {
      var lines, complete := EnvFormat(secrets);
      out := EnvOutput(lines, complete);
    }
  }
}
