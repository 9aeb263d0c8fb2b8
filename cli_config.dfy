/** The CLI's configuration (cli/src/utils/config.ts): the defaults, the
    file's fields spread over them, and the dotted-path read and write. */
module CliConfig {
  import opened Common
  import opened Json

  /** `DEFAULT_CONFIG` (cli/src/utils/config.ts:17-20). */
  const DefaultConfig: Members := [("storage", JStr("local")), ("serverUrl", JStr("http://localhost:8080"))]

  /** What reading `~/.greyzone/config.json` gives. `Parsed` holds a file whose
      JSON text is an object; `Scalar` one whose text is `null`, a boolean or
      a number, whose spread adds nothing. */
  datatype ConfigFile = Missing | Unreadable | Parsed(members: Members) | Scalar

  predicate WellFormed(file: ConfigFile) {
    file.Parsed? ==> UniqueKeys(file.members)
  }

  /** `getConfig` (cli/src/utils/config.ts:22-32). */
  function GetConfig(file: ConfigFile): (config: Members)
    ensures !file.Parsed? ==> config == DefaultConfig
  {
    if file.Parsed? then Overlay(DefaultConfig, file.members) else DefaultConfig
  }

  /** A field of the loaded config comes from the file when the file has it,
      and from the defaults otherwise; a missing or unreadable file gives the
      defaults. */
  lemma GetConfigFields(file: ConfigFile, k: string)
    requires WellFormed(file)
    ensures Lookup(GetConfig(file), k) ==
      if file.Parsed? && HasKey(file.members, k) then Lookup(file.members, k) else Lookup(DefaultConfig, k)
  {
    if file.Parsed? {
      OverlayLookup(DefaultConfig, file.members, k);
    }
  }

  // ---------------------------------------------------------------------
  // getConfigValue (cli/src/utils/config.ts:57-72)

  /** The value reached from `j` by descending one field per key, or None
      as soon as a key is missing or the current value is not an object. */
  function Descend(j: Json, keys: seq<string>): (r: Option<Json>)
    ensures keys == [] ==> r == Some(j)
    decreases |keys|
  {
    if keys == [] then Some(j)
    else if j.JObj? && HasKey(j.members, keys[0]) then Descend(Lookup(j.members, keys[0]).value, keys[1..])
    else None
  }

  /** What `getConfigValue` prints: a string unchanged, any other value as
      the text `JSON.stringify` makes of it. */
  datatype Rendered = Text(s: string) | JsonText(value: Json)

  function Render(j: Json): (r: Rendered)
    ensures j.JStr? <==> r.Text?
    ensures r.Text? ==> r.s == j.s
    ensures r.JsonText? ==> r.value == j
  {
    if j.JStr? then Text(j.s) else JsonText(j)
  }

  /** getConfigValue(key) on the loaded config `config`. */
  method GetConfigValue(config: Members, key: string) returns (r: Option<Rendered>)
    ensures var found := Descend(JObj(config), Split(key, '.'));
      (r.None? <==> found.None?) && (r.Some? ==> r.value == Render(found.value))
  {
    var keys := Split(key, '.');
    var obj := JObj(config);
    var i := 0;
    while i < |keys|
      invariant 0 <= i <= |keys|
      invariant Descend(obj, keys[i..]) == Descend(JObj(config), keys)
    {
      assert keys[i..][1..] == keys[i + 1..];
      if obj.JObj? && HasKey(obj.members, keys[i]) {
        obj := Lookup(obj.members, keys[i]).value;
      } else {
        return None;
      }
      i := i + 1;
    }
    r := Some(Render(obj));
  }

  // ---------------------------------------------------------------------
  // setConfig (cli/src/utils/config.ts:34-55)

  /** `obj` after the walk of `setConfig` along `keys`: a missing
      intermediate becomes `{}`, and the last key is assigned `value`. The
      walk fails (a TypeError) when an intermediate that exists is not an
      object. */
  function SetPath(obj: Members, keys: seq<string>, value: string): (r: Option<Members>)
    requires |keys| >= 1
    decreases |keys|
  {
    if |keys| == 1 then Some(Assign(obj, keys[0], JStr(value)))
    else
      match Lookup(obj, keys[0])
      case None =>
        var inner := SetPath([], keys[1..], value);
        if inner.Some? then Some(Assign(obj, keys[0], JObj(inner.value))) else None
      case Some(child) =>
        if child.JObj? then
          var inner := SetPath(child.members, keys[1..], value);
          if inner.Some? then Some(Assign(obj, keys[0], JObj(inner.value))) else None
        else None
  }

  /** Every intermediate on the path that exists is an object. */
  predicate PathOpen(obj: Members, keys: seq<string>)
    requires |keys| >= 1
    decreases |keys|
  {
    |keys| == 1 ||
    match Lookup(obj, keys[0])
    case None => true
    case Some(child) => child.JObj? && PathOpen(child.members, keys[1..])
  }

  /** The walk fails exactly when it meets an existing intermediate that is
      not an object. */
  lemma {:induction false} SetPathSucceedsIff(obj: Members, keys: seq<string>, value: string)
    requires |keys| >= 1
    ensures SetPath(obj, keys, value).Some? <==> PathOpen(obj, keys)
    decreases |keys|
  {
    if |keys| > 1 {
      match Lookup(obj, keys[0])
      case None =>
        SetPathSucceedsIff([], keys[1..], value);
        FreshPathOpen(keys[1..]);
      case Some(child) =>
        if child.JObj? {
          SetPathSucceedsIff(child.members, keys[1..], value);
        }
    }
  }

  lemma {:induction false} FreshPathOpen(keys: seq<string>)
    requires |keys| >= 1
    ensures PathOpen([], keys)
  {
  }

  /** The walk keeps the property names of every object it rebuilds distinct. */
  lemma {:induction false} SetPathKeepsUnique(obj: Members, keys: seq<string>, value: string)
    requires |keys| >= 1 && UniqueKeys(obj) && SetPath(obj, keys, value).Some?
    ensures UniqueKeys(SetPath(obj, keys, value).value)
    decreases |keys|
  {
    if |keys| == 1 {
      AssignKeepsUnique(obj, keys[0], JStr(value));
    } else {
      var inner := if Lookup(obj, keys[0]).None? then SetPath([], keys[1..], value)
                   else SetPath(Lookup(obj, keys[0]).value.members, keys[1..], value);
      AssignKeepsUnique(obj, keys[0], JObj(inner.value));
    }
  }

  /** Round trip: after a successful walk, descending along the same keys
      finds the value written. */
  lemma {:induction false} SetPathThenDescend(obj: Members, keys: seq<string>, value: string)
    requires |keys| >= 1 && SetPath(obj, keys, value).Some?
    ensures Descend(JObj(SetPath(obj, keys, value).value), keys) == Some(JStr(value))
    decreases |keys|
  {
    var r := SetPath(obj, keys, value).value;
    assert HasKey(r, keys[0]);
    if |keys| > 1 {
      if Lookup(obj, keys[0]).None? {
        SetPathThenDescend([], keys[1..], value);
      } else {
        SetPathThenDescend(Lookup(obj, keys[0]).value.members, keys[1..], value);
      }
    }
  }

  /** Frame: a path that leaves the written path at some key finds after the
      walk what it found before. */
  lemma {:induction false} SetPathFrame(obj: Members, keys: seq<string>, value: string, other: seq<string>, j: nat)
    requires |keys| >= 1 && SetPath(obj, keys, value).Some?
    requires j < |keys| && j < |other| && other[..j] == keys[..j] && other[j] != keys[j]
    ensures Descend(JObj(SetPath(obj, keys, value).value), other) == Descend(JObj(obj), other)
    decreases |keys|
  {
    var r := SetPath(obj, keys, value).value;
    SetPathShape(obj, keys, value);
    DescendObject(r, other);
    DescendObject(obj, other);
    if j == 0 {
      assert Lookup(r, other[0]) == Lookup(obj, other[0]);
    } else {
      PrefixTail(other, keys, j);
      var child := Child(obj, keys[0]);
      SetPathFrame(child, keys[1..], value, other[1..], j - 1);
      assert Descend(JObj(r), other) == Descend(JObj(child), other[1..]);
      if Lookup(obj, keys[0]).None? {
        FreshObjectFindsNothing(other[1..]);
      } else {
        assert Descend(JObj(obj), other) == Descend(JObj(child), other[1..]);
      }
    }
  }

  /** One step of the descent into an object. */
  lemma DescendObject(m: Members, path: seq<string>)
    requires |path| >= 1
    ensures Descend(JObj(m), path) == if HasKey(m, path[0]) then Descend(Lookup(m, path[0]).value, path[1..]) else None
  {
  }

  /** The members of the intermediate `setConfig` descends into at `k`: those
      of the object found there, or a fresh `{}`. */
  function Child(obj: Members, k: string): Members {
    match Lookup(obj, k)
    case Some(JObj(m)) => m
    case _ => []
  }

  /** One step of the walk: the key is reassigned, and nothing else changes. */
  lemma SetPathShape(obj: Members, keys: seq<string>, value: string)
    requires |keys| >= 1 && SetPath(obj, keys, value).Some?
    ensures var r := SetPath(obj, keys, value).value;
      && (forall k :: k != keys[0] ==> Lookup(r, k) == Lookup(obj, k))
      && (|keys| > 1 ==>
            && SetPath(Child(obj, keys[0]), keys[1..], value).Some?
            && Lookup(r, keys[0]) == Some(JObj(SetPath(Child(obj, keys[0]), keys[1..], value).value))
            && (Lookup(obj, keys[0]).Some? ==> Lookup(obj, keys[0]) == Some(JObj(Child(obj, keys[0])))))
  {
  }

  /** Descending from an empty object finds nothing. */
  lemma FreshObjectFindsNothing(other: seq<string>)
    requires |other| >= 1
    ensures Descend(JObj([]), other) == None
  {
  }

  /** `setConfig(key, value)`: the config to write back, or None when the
      walk throws. */
  function SetConfig(file: ConfigFile, key: string, value: string): (r: Option<Members>)
  {
    SetPath(GetConfig(file), Split(key, '.'), value)
  }

  /** Writing a key and reading it back from the written file gives the
      value written, unless the walk failed, which it does exactly when an
      existing intermediate is not an object. */
  lemma SetConfigRoundTrip(file: ConfigFile, key: string, value: string)
    requires WellFormed(file)
    ensures SetConfig(file, key, value).Some? <==> PathOpen(GetConfig(file), Split(key, '.'))
    ensures SetConfig(file, key, value).Some? ==>
      var written := Parsed(SetConfig(file, key, value).value);
      && WellFormed(written)
      && Descend(JObj(GetConfig(written)), Split(key, '.')) == Some(JStr(value))
  {
    var keys := Split(key, '.');
    var config := GetConfig(file);
    SetPathSucceedsIff(config, keys, value);
    if SetConfig(file, key, value).Some? {
      var m := SetConfig(file, key, value).value;
      assert UniqueKeys(config) by {
        if file.Parsed? {
          OverlayKeepsUnique(DefaultConfig, file.members);
        }
      }
      SetPathKeepsUnique(config, keys, value);
      SetPathThenDescend(config, keys, value);
      assert HasKey(m, keys[0]);
      OverlayLookup(DefaultConfig, m, keys[0]);
      assert Lookup(GetConfig(Parsed(m)), keys[0]) == Lookup(m, keys[0]);
    }
  }

  /** A spread of an object with distinct names over one with distinct names
      has distinct names. */
  lemma {:induction false} OverlayKeepsUnique(base: Members, over: Members)
    requires UniqueKeys(base)
    ensures UniqueKeys(Overlay(base, over))
    decreases |over|
  {
    if over != [] {
      AssignKeepsUnique(base, over[0].0, over[0].1);
      OverlayKeepsUnique(Assign(base, over[0].0, over[0].1), over[1..]);
    }
  }
}
