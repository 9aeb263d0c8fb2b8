/** The `.env` loader at the top of server/index.js (lines 12-19): the file is
    split into lines, and each line with a non-empty text before its first
    `=` sets one variable, overriding what the environment held. */
module EnvFile {
  import opened Common

  /** The variable a line sets, if any: the trimmed text before the first
      `=` and the trimmed text after it. */
  function ParseLine(line: string): (entry: Option<(string, string)>)
    ensures entry.Some? <==> '=' in line && Split(line, '=')[0] != ""
  {
    var parts := Split(line, '=');
    SplitFirst(line, '=');
    if parts[0] != "" && |parts| > 1 then Some((Trim(parts[0]), Trim(Join(parts[1..], '=')))) else None
  }

  /** A line whose first `=` is at index `i` sets the trimmed text before it
      to the trimmed text after it, later `=` included; a line that starts
      with `=` sets nothing. */
  lemma ParseLineAtFirstEquals(line: string, i: nat)
    requires i < |line| && line[i] == '=' && '=' !in line[..i]
    ensures i == 0 ==> ParseLine(line) == None
    ensures i > 0 ==> ParseLine(line) == Some((Trim(line[..i]), Trim(line[i + 1..])))
  {
    SplitAtFirst(line, '=', i);
  }

  /** A line without `=` sets nothing. */
  lemma ParseLineWithoutEquals(line: string)
    requires '=' !in line
    ensures ParseLine(line) == None
  {
  }

  /** The environment after one line is applied. */
  function Step(env: map<string, string>, line: string): map<string, string> {
    var entry := ParseLine(line);
    if entry.Some? then env[entry.value.0 := entry.value.1] else env
  }

  /** The environment after the lines, in order. */
  function Apply(env: map<string, string>, lines: seq<string>): map<string, string>
    decreases |lines|
  {
    if lines == [] then env else Apply(Step(env, lines[0]), lines[1..])
  }

  /** A variable no line sets keeps its value (or stays unset). */
  lemma {:induction false} ApplyFrame(env: map<string, string>, lines: seq<string>, name: string)
    requires forall i :: 0 <= i < |lines| && ParseLine(lines[i]).Some? ==> ParseLine(lines[i]).value.0 != name
    ensures name in Apply(env, lines) <==> name in env
    ensures name in env ==> Apply(env, lines)[name] == env[name]
    decreases |lines|
  {
    if lines != [] {
      NotSetInTail(lines, -1, name);
      ApplyFrame(Step(env, lines[0]), lines[1..], name);
    }
  }

  /** No line after index `j` sets `name`, seen from the second line on. */
  lemma NotSetInTail(lines: seq<string>, j: int, name: string)
    requires j >= -1 && lines != []
    requires forall i :: j < i < |lines| && ParseLine(lines[i]).Some? ==> ParseLine(lines[i]).value.0 != name
    ensures forall i :: 0 <= i < |lines| - 1 && j - 1 < i && ParseLine(lines[1..][i]).Some? ==> ParseLine(lines[1..][i]).value.0 != name
  {
    forall i | 0 <= i < |lines| - 1
      ensures lines[1..][i] == lines[i + 1]
    {
    }
  }

  /** The last line that sets a variable decides its value. */
  lemma {:induction false} ApplyLastWins(env: map<string, string>, lines: seq<string>, j: nat, name: string, value: string)
    requires j < |lines| && ParseLine(lines[j]) == Some((name, value))
    requires forall i :: j < i < |lines| && ParseLine(lines[i]).Some? ==> ParseLine(lines[i]).value.0 != name
    ensures name in Apply(env, lines) && Apply(env, lines)[name] == value
    decreases |lines|
  {
    NotSetInTail(lines, j, name);
    if j == 0 {
      FirstLineLastSets(env, lines, name, value);
    } else {
      var env' := Step(env, lines[0]);
      assert Apply(env, lines) == Apply(env', lines[1..]);
      assert lines[1..][j - 1] == lines[j];
      ApplyLastWins(env', lines[1..], j - 1, name, value);
    }
  }

  /** A first line that sets `name`, followed by none that does, decides its value. */
  lemma FirstLineLastSets(env: map<string, string>, lines: seq<string>, name: string, value: string)
    requires lines != [] && ParseLine(lines[0]) == Some((name, value))
    requires forall i :: 0 <= i < |lines| - 1 && ParseLine(lines[1..][i]).Some? ==> ParseLine(lines[1..][i]).value.0 != name
    ensures name in Apply(env, lines) && Apply(env, lines)[name] == value
  {
    var env' := Step(env, lines[0]);
    assert env' == env[name := value];
    ApplyFrame(env', lines[1..], name);
  }

  /** Loads the content of a `.env` file into the environment `env`. */
  method Load(content: string, env: map<string, string>) returns (result: map<string, string>)
    ensures result == Apply(env, Split(content, '\n'))
  {
    var lines := Split(content, '\n');
    result := env;
    var i := 0;
    while i < |lines|
      invariant 0 <= i <= |lines|
      invariant Apply(result, lines[i..]) == Apply(env, lines)
    {
      assert lines[i..][1..] == lines[i + 1..];
      var entry := ParseLine(lines[i]);
      if entry.Some? {
        result := result[entry.value.0 := entry.value.1];
      }
      i := i + 1;
    }
  }
}
