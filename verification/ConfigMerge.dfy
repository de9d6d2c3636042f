// Recursive merging of JSON configuration objects, and the Codex configuration
// built with it.
module ConfigMerge {
  import opened Wrappers

  datatype Json =
    | Null
    | Bool(b: bool)
    | Number(text: string)
    | String(s: string)
    | Array(items: seq<Json>)
    | Object(entries: Config)

  type Config = map<string, Json>

  // ---------- the merge ----------

  // What `overlay` makes of `base`: objects merge key by key, anything else wins.
  function Merge(base: Json, overlay: Json): Json
    decreases overlay
  {
    if base.Object? && overlay.Object? then
      Object(map k | k in base.entries.Keys + overlay.entries.Keys ::
        if k !in overlay.entries then base.entries[k]
        else if k !in base.entries then overlay.entries[k]
        else Merge(base.entries[k], overlay.entries[k]))
    else overlay
  }

  // The program's loop over the overlay, updating `base` in place.
  method DeepMerge(base: Config, overlay: Config) returns (merged: Config)
    ensures Object(merged) == Merge(Object(base), Object(overlay))
    decreases Object(overlay)
  {
    merged := base;
    var todo := overlay.Keys;
    while todo != {}
      invariant todo <= overlay.Keys
      invariant merged.Keys == base.Keys + (overlay.Keys - todo)
      invariant forall k | k in merged ::
                  merged[k] == if k in overlay && k !in todo
                               then (if k in base then Merge(base[k], overlay[k]) else overlay[k])
                               else base[k]
      decreases todo
    {
      var k :| k in todo;
      todo := todo - {k};
      if k in merged && merged[k].Object? && overlay[k].Object? {
        var inner := DeepMerge(merged[k].entries, overlay[k].entries);
        merged := merged[k := Object(inner)];
      } else {
        merged := merged[k := overlay[k]];
      }
    }
    assert merged == Merge(Object(base), Object(overlay)).entries;
  }

  // ---------- what a path sees ----------

  type Path = seq<string>

  function Lookup(json: Json, path: Path): Option<Json>
    decreases path
  {
    if path == [] then Some(json)
    else if json.Object? && path[0] in json.entries then Lookup(json.entries[path[0]], path[1..])
    else None
  }

  // Walking `path` in `overlay` either arrives, or runs into a value that is not
  // an object: the overlay then decides what is at `path`.
  predicate Replaces(overlay: Json, path: Path)
    decreases path
  {
    if path == [] || !overlay.Object? then true
    else path[0] in overlay.entries && Replaces(overlay.entries[path[0]], path[1..])
  }

  predicate IsObjectAt(json: Json, path: Path) {
    Lookup(json, path).Some? && Lookup(json, path).value.Object?
  }

  // The merge, path by path: a leaf is there exactly when the overlay has it or
  // the base has it and the overlay does not replace it; likewise for objects.
  lemma {:induction false} MergedAt(a: Json, b: Json, path: Path, leaf: Json)
    requires !leaf.Object?
    ensures Lookup(Merge(a, b), path) == Some(leaf)
            <==> Lookup(b, path) == Some(leaf) || (Lookup(a, path) == Some(leaf) && !Replaces(b, path))
    ensures IsObjectAt(Merge(a, b), path)
            <==> IsObjectAt(b, path) || (IsObjectAt(a, path) && !Replaces(b, path))
    decreases path
  {
    if path != [] && a.Object? && b.Object? {
      var k := path[0];
      if k in a.entries && k in b.entries {
        MergedAt(a.entries[k], b.entries[k], path[1..], leaf);
      }
      if k !in a.entries && k in b.entries {
        SeenIsReplaced(b.entries[k], path[1..]);
      }
    } else {
      SeenIsReplaced(b, path);
    }
  }

  lemma {:induction false} SeenIsReplaced(json: Json, path: Path)
    ensures Lookup(json, path).Some? ==> Replaces(json, path)
    decreases path
  {
    if path != [] && json.Object? && path[0] in json.entries {
      SeenIsReplaced(json.entries[path[0]], path[1..]);
    }
  }

  // Two objects with the same leaves and the same object paths are equal, so
  // `MergedAt` leaves nothing of the merge unsaid.
  lemma {:induction false} PathsDetermine(a: Json, b: Json)
    requires forall path, leaf: Json | !leaf.Object? ::
               Lookup(a, path) == Some(leaf) <==> Lookup(b, path) == Some(leaf)
    requires forall path :: IsObjectAt(a, path) <==> IsObjectAt(b, path)
    ensures a == b
    decreases a
  {
    assert Lookup(a, []) == Some(a) && Lookup(b, []) == Some(b);
    assert IsObjectAt(a, []) <==> IsObjectAt(b, []);
    if a.Object? {
      assert b.Object?;
      forall k
        ensures k in a.entries <==> k in b.entries
        ensures k in a.entries && k in b.entries ==> a.entries[k] == b.entries[k]
      {
        OneStep(a, k);
        OneStep(b, k);
        assert IsObjectAt(a, [k]) <==> IsObjectAt(b, [k]);
        if k in a.entries && !a.entries[k].Object? {
          assert Lookup(b, [k]) == Some(a.entries[k]);
        }
        if k in b.entries && !b.entries[k].Object? {
          assert Lookup(a, [k]) == Some(b.entries[k]);
        }
        if k in a.entries && k in b.entries {
          forall path, leaf: Json | !leaf.Object?
            ensures Lookup(a.entries[k], path) == Some(leaf) <==> Lookup(b.entries[k], path) == Some(leaf)
          {
            assert ([k] + path)[1..] == path;
            assert Lookup(a, [k] + path) == Lookup(a.entries[k], path);
            assert Lookup(b, [k] + path) == Lookup(b.entries[k], path);
          }
          forall path
            ensures IsObjectAt(a.entries[k], path) <==> IsObjectAt(b.entries[k], path)
          {
            assert ([k] + path)[1..] == path;
            assert Lookup(a, [k] + path) == Lookup(a.entries[k], path);
            assert Lookup(b, [k] + path) == Lookup(b.entries[k], path);
            assert IsObjectAt(a, [k] + path) <==> IsObjectAt(b, [k] + path);
          }
          PathsDetermine(a.entries[k], b.entries[k]);
        }
      }
      assert a.entries == b.entries;
    }
  }

  lemma OneStep(json: Json, k: string)
    requires json.Object?
    ensures Lookup(json, [k]) == if k in json.entries then Some(json.entries[k]) else None
  {
    assert [k][1..] == [];
  }

  // ---------- algebra ----------

  lemma EmptyIsIdentity(config: Config)
    ensures Merge(Object(map[]), Object(config)) == Object(config)
    ensures Merge(Object(config), Object(map[])) == Object(config)
  {
    assert Merge(Object(map[]), Object(config)).entries == config;
    assert Merge(Object(config), Object(map[])).entries == config;
  }

  lemma {:induction false} Idempotent(a: Json)
    ensures Merge(a, a) == a
  {
    if a.Object? {
      forall k | k in a.entries
        ensures Merge(a.entries[k], a.entries[k]) == a.entries[k]
      {
        Idempotent(a.entries[k]);
      }
      assert Merge(a, a).entries == a.entries;
    }
  }

  // Applying the same overlay again changes nothing.
  lemma {:induction false} Absorbs(a: Json, b: Json)
    ensures Merge(Merge(a, b), b) == Merge(a, b)
    decreases b
  {
    if a.Object? && b.Object? {
      var once := Merge(a, b);
      forall k | k in b.entries
        ensures Merge(once.entries[k], b.entries[k]) == once.entries[k]
      {
        if k in a.entries {
          Absorbs(a.entries[k], b.entries[k]);
        } else {
          Idempotent(b.entries[k]);
        }
      }
      assert Merge(once, b).entries == once.entries;
    } else {
      Idempotent(b);
    }
  }

  // `c` already has every key of `a`, all the way down to where `c` stops being an object.
  predicate Covers(c: Json, a: Json)
    decreases a
  {
    c.Object? && a.Object? ==> forall k | k in a.entries :: k in c.entries && Covers(c.entries[k], a.entries[k])
  }

  lemma {:induction false} CoveredAddsNothing(a: Json, c: Json)
    ensures Covers(c, a) <==> Merge(a, c) == c
    decreases a
  {
    if a.Object? && c.Object? {
      forall k | k in a.entries && k in c.entries
        ensures Covers(c.entries[k], a.entries[k]) <==> Merge(a.entries[k], c.entries[k]) == c.entries[k]
      {
        CoveredAddsNothing(a.entries[k], c.entries[k]);
      }
      var merged := Merge(a, c).entries;
      if Covers(c, a) {
        assert merged == c.entries;
      }
      if Merge(a, c) == c {
        assert forall k | k in a.entries :: k in merged;
      }
    }
  }

  // The order of three merges matters only where a value that is not an object
  // stands between two objects, and there only if the outer one adds a key.
  predicate Associates(a: Json, b: Json, c: Json)
    decreases a
  {
    if !a.Object? || !c.Object? then true
    else if !b.Object? then Covers(c, a)
    else forall k | k in a.entries && k in b.entries && k in c.entries ::
           Associates(a.entries[k], b.entries[k], c.entries[k])
  }

  lemma {:induction false} AssociativeExactly(a: Json, b: Json, c: Json)
    ensures Merge(Merge(a, b), c) == Merge(a, Merge(b, c)) <==> Associates(a, b, c)
    decreases a
  {
    if a.Object? && c.Object? && !b.Object? {
      CoveredAddsNothing(a, c);
    } else if a.Object? && b.Object? && c.Object? {
      var left, right := Merge(Merge(a, b), c), Merge(a, Merge(b, c));
      forall k | k in a.entries && k in b.entries && k in c.entries
        ensures left.entries[k] == right.entries[k] <==> Associates(a.entries[k], b.entries[k], c.entries[k])
      {
        AssociativeExactly(a.entries[k], b.entries[k], c.entries[k]);
      }
      assert left.entries.Keys == right.entries.Keys;
      assert forall k | k in left.entries && !(k in a.entries && k in b.entries && k in c.entries) ::
          left.entries[k] == right.entries[k];
      if left == right {
        assert forall k | k in left.entries :: left.entries[k] == right.entries[k];
      }
      if Associates(a, b, c) {
        assert left.entries == right.entries;
      }
    }
  }

  // ---------- the Codex configuration ----------

  const CODEX_CONFIG := "CODEX_CONFIG"
  const SANDBOX := "sandbox_workspace_write"
  const NETWORK := "network_access"

  // The outcome of parsing one environment value as JSON.
  datatype Parsed = Parses(json: Json) | DoesNotParse

  datatype Source = Persona | Generated | ParentEnvironment

  datatype ConfigError =
    | NotJson(source: Source)
    | NotAnObject(source: Source)
    | SandboxNotAnObject(found: Json)

  function ParseObject(value: Parsed, source: Source): Result<Config, ConfigError> {
    match value
    case Parses(Object(config)) => Success(config)
    case Parses(_) => Failure(NotAnObject(source))
    case DoesNotParse => Failure(NotJson(source))
  }

  function SourceOf(index: nat): Source {
    if index == 0 then Persona else Generated
  }

  ghost function CodexEntries(env: seq<(string, Parsed)>): seq<Parsed> {
    if env == [] then []
    else (if env[0].0 == CODEX_CONFIG then [env[0].1] else []) + CodexEntries(env[1..])
  }

  // Entries `from..` as objects, or the first complaint.
  ghost function ParseAll(entries: seq<Parsed>, from: nat): Result<seq<Config>, ConfigError>
    requires from <= |entries|
    decreases |entries| - from
  {
    if from == |entries| then Success([])
    else
      match ParseObject(entries[from], SourceOf(from))
      case Failure(error) => Failure(error)
      case Success(config) =>
        match ParseAll(entries, from + 1)
        case Failure(error) => Failure(error)
        case Success(rest) => Success([config] + rest)
  }

  ghost function MergeAll(base: Config, overlays: seq<Config>): Config
    decreases overlays
  {
    if overlays == [] then base
    else MergeAll(Merge(Object(base), Object(overlays[0])).entries, overlays[1..])
  }

  ghost function Layered(layers: seq<Config>, parent: Option<Config>): Config
    requires layers != []
  {
    var merged := MergeAll(layers[0], layers[1..]);
    if parent.Some? then Merge(Object(merged), Object(parent.value)).entries else merged
  }

  function ForceNetwork(config: Config): Result<Config, ConfigError> {
    var sandbox := if SANDBOX in config then config[SANDBOX] else Object(map[]);
    if sandbox.Object?
    then Success(config[SANDBOX := Object(sandbox.entries[NETWORK := Bool(true)])])
    else Failure(SandboxNotAnObject(sandbox))
  }

  ghost function CodexConfig(env: seq<(string, Parsed)>, parent: Option<Parsed>, hasGenerated: bool)
    : Result<Option<Config>, ConfigError>
  {
    var entries := CodexEntries(env);
    if !hasGenerated || entries == [] then Success(None)
    else
      match ParseAll(entries, 0)
      case Failure(error) => Failure(error)
      case Success(layers) =>
        if parent.Some? && ParseObject(parent.value, ParentEnvironment).Failure?
        then Failure(ParseObject(parent.value, ParentEnvironment).error)
        else
          ParsedLength(entries, 0);
          var top := if parent.Some? then Some(ParseObject(parent.value, ParentEnvironment).value) else None;
          match ForceNetwork(Layered(layers, top))
          case Failure(error) => Failure(error)
          case Success(config) => Success(Some(config))
  }

  lemma {:induction false} ParsedLength(entries: seq<Parsed>, from: nat)
    requires from <= |entries|
    ensures ParseAll(entries, from).Success? ==> |ParseAll(entries, from).value| == |entries| - from
    decreases |entries| - from
  {
    if from < |entries| {
      ParsedLength(entries, from + 1);
    }
  }

  method BuildCodexConfig(env: seq<(string, Parsed)>, parent: Option<Parsed>, hasGenerated: bool)
    returns (result: Result<Option<Config>, ConfigError>)
    ensures result == CodexConfig(env, parent, hasGenerated)
  {
    if !hasGenerated {
      return Success(None);
    }
    var entries := CollectEntries(env);
    if entries == [] {
      return Success(None);
    }
    var parsed := ParseEntries(entries);
    if parsed.Failure? {
      return Failure(parsed.error);
    }
    ParsedLength(entries, 0);
    var base := parsed.value[0];
    var overlays := parsed.value[1..];
    assert overlays[0..] == overlays;
    for i := 0 to |overlays|
      invariant MergeAll(base, overlays[i..]) == MergeAll(parsed.value[0], overlays)
    {
      assert overlays[i..][1..] == overlays[i + 1..];
      base := DeepMerge(base, overlays[i]);
    }
    if parent.Some? {
      var top := ParseObject(parent.value, ParentEnvironment);
      if top.Failure? {
        return Failure(top.error);
      }
      base := DeepMerge(base, top.value);
    }
    ghost var layered := base;
    assert layered == Layered(parsed.value, if parent.Some? then Some(parent.value.json.entries) else None);
    if SANDBOX !in base {
      base := base[SANDBOX := Object(map[])];
    }
    if !base[SANDBOX].Object? {
      return Failure(SandboxNotAnObject(base[SANDBOX]));
    }
    base := base[SANDBOX := Object(base[SANDBOX].entries[NETWORK := Bool(true)])];
    assert base == ForceNetwork(layered).value;
    return Success(Some(base));
  }

  method CollectEntries(env: seq<(string, Parsed)>) returns (entries: seq<Parsed>)
    ensures entries == CodexEntries(env)
  {
    entries := [];
    for i := 0 to |env|
      invariant entries + CodexEntries(env[i..]) == CodexEntries(env)
    {
      assert env[i..][1..] == env[i + 1..];
      if env[i].0 == CODEX_CONFIG {
        entries := entries + [env[i].1];
      }
    }
  }

  method ParseEntries(entries: seq<Parsed>) returns (result: Result<seq<Config>, ConfigError>)
    ensures result == ParseAll(entries, 0)
  {
    var parsed: seq<Config> := [];
    assert forall rest: seq<Config> :: parsed + rest == rest;
    for i := 0 to |entries|
      invariant ParseAll(entries, 0)
                == match ParseAll(entries, i)
                   case Failure(error) => Failure(error)
                   case Success(rest) => Success(parsed + rest)
    {
      var one := ParseObject(entries[i], SourceOf(i));
      if one.Failure? {
        return Failure(one.error);
      }
      assert forall rest: seq<Config> :: parsed + ([one.value] + rest) == (parsed + [one.value]) + rest;
      parsed := parsed + [one.value];
    }
    assert parsed + [] == parsed;
    return Success(parsed);
  }

  predicate UnderNetwork(path: Path) {
    [SANDBOX, NETWORK] <= path
  }

  // Forcing changes exactly what is at and under the network key.
  lemma ForcedAt(config: Config, forced: Config, path: Path, leaf: Json)
    requires ForceNetwork(config) == Success(forced) && !leaf.Object?
    ensures Lookup(Object(forced), path) == Some(leaf)
            <==> if UnderNetwork(path) then path == [SANDBOX, NETWORK] && leaf == Bool(true)
                 else Lookup(Object(config), path) == Some(leaf)
  {
    if path != [] && path[0] == SANDBOX {
      var rest := path[1..];
      if rest != [] && rest[0] == NETWORK {
        assert path == [SANDBOX, NETWORK] + rest[1..];
        assert Lookup(Object(forced), path) == Lookup(Bool(true), rest[1..]);
      }
    }
  }

  // A built configuration grants network access; every other leaf of the
  // parent's environment is in it; and any leaf comes from the parent or, where
  // the parent does not replace it, from the merged layers.
  lemma CodexConfigContents(
    env: seq<(string, Parsed)>, parent: Option<Parsed>, config: Config, path: Path, leaf: Json)
    requires CodexConfig(env, parent, true) == Success(Some(config)) && !leaf.Object?
    ensures Lookup(Object(config), [SANDBOX, NETWORK]) == Some(Bool(true))
    ensures CodexEntries(env) != [] && ParseAll(CodexEntries(env), 0).Success?
            && ParseAll(CodexEntries(env), 0).value != []
    ensures !UnderNetwork(path) ==>
              var layers := ParseAll(CodexEntries(env), 0).value;
              var merged := Object(MergeAll(layers[0], layers[1..]));
              Lookup(Object(config), path) == Some(leaf) <==>
              if parent.None? then Lookup(merged, path) == Some(leaf)
              else
                || Lookup(parent.value.json, path) == Some(leaf)
                || (Lookup(merged, path) == Some(leaf) && !Replaces(parent.value.json, path))
  {
    ParsedLength(CodexEntries(env), 0);
    var layers := ParseAll(CodexEntries(env), 0).value;
    var merged := MergeAll(layers[0], layers[1..]);
    var top := if parent.Some? then Some(ParseObject(parent.value, ParentEnvironment).value) else None;
    if parent.Some? {
      MergedAt(Object(merged), parent.value.json, path, leaf);
    }
    ForcedAt(Layered(layers, top), config, path, leaf);
    ForcedAt(Layered(layers, top), config, [SANDBOX, NETWORK], Bool(true));
  }

  // With a generated entry present and everything parsing to objects, the build
  // fails exactly when the merged sandbox setting is a value other than an object.
  lemma CodexConfigFails(env: seq<(string, Parsed)>, parent: Option<Parsed>)
    requires CodexEntries(env) != [] && ParseAll(CodexEntries(env), 0).Success?
    requires parent.Some? ==> parent.value.Parses? && parent.value.json.Object?
    ensures ParseAll(CodexEntries(env), 0).value != []
    ensures var merged := Layered(ParseAll(CodexEntries(env), 0).value,
                                  if parent.Some? then Some(parent.value.json.entries) else None);
            CodexConfig(env, parent, true).Failure?
            <==> Lookup(Object(merged), [SANDBOX]).Some? && !IsObjectAt(Object(merged), [SANDBOX])
    ensures CodexConfig(env, parent, true).Failure? ==>
              var merged := Layered(ParseAll(CodexEntries(env), 0).value,
                                    if parent.Some? then Some(parent.value.json.entries) else None);
              Lookup(Object(merged), [SANDBOX]) == Some(CodexConfig(env, parent, true).error.found)
  {
    ParsedLength(CodexEntries(env), 0);
    var merged := Layered(ParseAll(CodexEntries(env), 0).value,
                          if parent.Some? then Some(parent.value.json.entries) else None);
    OneStep(Object(merged), SANDBOX);
  }

  // The last word: of several layers, a leaf is there exactly when some layer has
  // it and no later layer replaces it.
  lemma {:induction false} LayersAt(base: Config, overlays: seq<Config>, path: Path, leaf: Json)
    requires !leaf.Object?
    ensures Lookup(Object(MergeAll(base, overlays)), path) == Some(leaf) <==>
            exists i | 0 <= i <= |overlays| ::
              && Lookup(Object(Layer(base, overlays, i)), path) == Some(leaf)
              && forall j | i <= j < |overlays| :: !Replaces(Object(overlays[j]), path)
    decreases |overlays|
  {
    if overlays == [] {
      assert Layer(base, overlays, 0) == base;
    } else {
      var n := |overlays| - 1;
      MergeAllLast(base, overlays);
      var before := MergeAll(base, overlays[..n]);
      MergedAt(Object(before), Object(overlays[n]), path, leaf);
      LayersAt(base, overlays[..n], path, leaf);
      assert forall i | 0 <= i <= n :: Layer(base, overlays, i) == Layer(base, overlays[..n], i);
      assert forall j | 0 <= j < n :: overlays[j] == overlays[..n][j];
      assert Layer(base, overlays, n + 1) == overlays[n];
      if Lookup(Object(overlays[n]), path) == Some(leaf) {
        assert Lookup(Object(Layer(base, overlays, n + 1)), path) == Some(leaf);
      }
    }
  }

  ghost function Layer(base: Config, overlays: seq<Config>, i: nat): Config
    requires i <= |overlays|
  {
    if i == 0 then base else overlays[i - 1]
  }

  lemma {:induction false} MergeAllLast(base: Config, overlays: seq<Config>)
    requires overlays != []
    ensures var n := |overlays| - 1;
            Object(MergeAll(base, overlays)) == Merge(Object(MergeAll(base, overlays[..n])), Object(overlays[n]))
    decreases overlays
  {
    var n := |overlays| - 1;
    if n > 0 {
      var next := Merge(Object(base), Object(overlays[0])).entries;
      MergeAllLast(next, overlays[1..]);
      assert overlays[..n][1..] == overlays[1..][..n - 1];
    }
  }

  // ---------- what comes of the environment ----------

  // The entries are the values named CODEX_CONFIG, all of them, in order: a further pair
  // adds its value at the end when it has that name, and otherwise nothing.
  lemma {:induction false} EntriesAppend(env: seq<(string, Parsed)>, pair: (string, Parsed))
    ensures CodexEntries([]) == []
    ensures CodexEntries(env + [pair]) == CodexEntries(env) + (if pair.0 == "CODEX_CONFIG" then [pair.1] else [])
  {
    if env == [] {
      assert env + [pair] == [pair];
    } else {
      EntriesAppend(env[1..], pair);
      assert (env + [pair])[1..] == env[1..] + [pair];
    }
  }

  lemma {:induction false} NoEntries(env: seq<(string, Parsed)>)
    ensures CodexEntries(env) == [] <==> forall k | 0 <= k < |env| :: env[k].0 != "CODEX_CONFIG"
  {
    if env != [] {
      NoEntries(env[1..]);
      assert forall k | 1 <= k < |env| :: env[k] == env[1..][k - 1];
    }
  }

  lemma {:induction false} ParsesUnlessOneDoesNot(entries: seq<Parsed>, from: nat)
    requires from <= |entries|
    ensures ParseAll(entries, from).Success? <==>
              forall i | from <= i < |entries| :: entries[i].Parses? && entries[i].json.Object?
    ensures forall i | from <= i < |entries| && !(entries[i].Parses? && entries[i].json.Object?)
                       && (forall j | from <= j < i :: entries[j].Parses? && entries[j].json.Object?) ::
              var source := if i == 0 then Persona else Generated;
              ParseAll(entries, from)
              == Failure(if entries[i].DoesNotParse? then NotJson(source) else NotAnObject(source))
    decreases |entries| - from
  {
    if from < |entries| {
      ParsesUnlessOneDoesNot(entries, from + 1);
    }
  }

  // The outcome for every input: nothing to build; the first entry at fault, the first of
  // all being the persona's; the parent's environment at fault; or, when all are objects,
  // a configuration unless the merged sandbox setting is not an object.
  lemma CodexOutcomeExactly(env: seq<(string, Parsed)>, parent: Option<Parsed>, hasGenerated: bool)
    ensures var result := CodexConfig(env, parent, hasGenerated);
            var entries := CodexEntries(env);
            && (result == Success(None) <==> !hasGenerated || forall k | 0 <= k < |env| :: env[k].0 != "CODEX_CONFIG")
            && (hasGenerated ==>
                  forall i | 0 <= i < |entries| && !(entries[i].Parses? && entries[i].json.Object?)
                             && (forall j | 0 <= j < i :: entries[j].Parses? && entries[j].json.Object?) ::
                    var source := if i == 0 then Persona else Generated;
                    result == Failure(if entries[i].DoesNotParse? then NotJson(source) else NotAnObject(source)))
            && (hasGenerated && entries != [] && (forall i | 0 <= i < |entries| :: entries[i].Parses? && entries[i].json.Object?) ==>
                  && (parent == Some(DoesNotParse) ==> result == Failure(NotJson(ParentEnvironment)))
                  && (parent.Some? && parent.value.Parses? && !parent.value.json.Object? ==>
                        result == Failure(NotAnObject(ParentEnvironment)))
                  && (parent == None || (parent.value.Parses? && parent.value.json.Object?) ==>
                        result.Success? || result.error.SandboxNotAnObject?))
            && (forall config | result == Success(Some(config)) ::
                  Lookup(Object(config), ["sandbox_workspace_write", "network_access"]) == Some(Bool(true)))
  {
    var entries := CodexEntries(env);
    NoEntries(env);
    ParsesUnlessOneDoesNot(entries, 0);
    forall config | CodexConfig(env, parent, hasGenerated) == Success(Some(config))
      ensures Lookup(Object(config), ["sandbox_workspace_write", "network_access"]) == Some(Bool(true))
    {
      CodexConfigContents(env, parent, config, [SANDBOX, NETWORK], Bool(true));
    }
  }
}
