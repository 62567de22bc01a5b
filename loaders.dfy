/** Configuration loaders: a loader takes the service metadata and
    returns a configuration.  This module models the three loaders of the
    package: the settings-file loader skeleton, the environment-variable
    loader, and the combinator that layers several loaders. */
module Loaders {
  import opened Wrappers
  import opened Strings
  import opened Configuration

  /** The service identity; only its name is used. */
  datatype Metadata = Metadata(name: string)

  /** A snapshot of the process environment, in enumeration order. */
  type Environ = seq<(string, string)>

  /** The JSON decoder (`json.loads`): `None` where it raises `ValueError`. */
  type Decoder = string -> Option<Value>

  // ---------------------------------------------------------------------
  // Settings-file loader

  datatype LoadError = FileAccessError(path: string) | ParseError(message: string)

  /** Reads a whole file (`open(path).read()`). */
  type Reader = string -> Result<string, LoadError>

  /** Turns file text into a mapping (`load_func`). */
  type Parser = string -> Result<Config, LoadError>

  /** `environ[key]` on the environment seen as a dictionary: the value of
      the last binding of `key`, or `None` when `key` is unbound. */
  function EnvGet(environ: Environ, key: string): (r: Option<string>)
    ensures r.None? <==> forall i :: 0 <= i < |environ| ==> environ[i].0 != key
    ensures r.Some? ==> exists i :: 0 <= i < |environ| && environ[i] == (key, r.value) &&
                                    forall j :: i < j < |environ| ==> environ[j].0 != key
    decreases |environ|
  {
    if environ == [] then None
    else if environ[|environ| - 1].0 == key then Some(environ[|environ| - 1].1)
    else EnvGet(environ[..|environ| - 1], key)
  }

  /** The name of the variable holding the settings file path,
      `FOO_SETTINGS` for a service `foo`; `underscore` is the
      inflection library's snake-casing. */
  function SettingsVariable(name: string, underscore: string -> string): (r: string)
    ensures |r| == |underscore(name)| + 9 && r[|underscore(name)|..] == "_SETTINGS"
    ensures forall i :: 0 <= i < |underscore(name)| ==> !('a' <= r[i] <= 'z')
    ensures forall i :: 0 <= i < |underscore(name)| ==> r[i] == UpperChar(underscore(name)[i])
  {
    Upper(underscore(name)) + "_SETTINGS"
  }

  /** The settings file path, or `None` when the settings variable is unset. */
  function GetConfigFilename(metadata: Metadata, environ: Environ, underscore: string -> string): (r: Option<string>)
    ensures r.None? <==>
      forall i :: 0 <= i < |environ| ==> environ[i].0 != SettingsVariable(metadata.name, underscore)
    ensures r.Some? ==>
      exists i :: 0 <= i < |environ| && environ[i] == (SettingsVariable(metadata.name, underscore), r.value) &&
                  forall j :: i < j < |environ| ==> environ[j].0 != SettingsVariable(metadata.name, underscore)
  {
    EnvGet(environ, SettingsVariable(metadata.name, underscore))
  }

  /** Loads the settings file named by the settings variable: an empty
      configuration when the variable is unset (no file is read), otherwise
      the parse of the file's text, with read and parse errors passed on. */
  function LoadFromFile(metadata: Metadata, environ: Environ, underscore: string -> string,
                        read: Reader, parse: Parser): (r: Result<Config, LoadError>)
    ensures (forall i :: 0 <= i < |environ| ==> environ[i].0 != SettingsVariable(metadata.name, underscore)) ==>
      r == Ok(map[])
    ensures GetConfigFilename(metadata, environ, underscore).Some? ==>
      var path := GetConfigFilename(metadata, environ, underscore).value;
      (read(path).Err? ==> r == Err(read(path).error)) &&
      (read(path).Ok? ==> r == parse(read(path).value))
  {
    match GetConfigFilename(metadata, environ, underscore)
    case None => Ok(map[])
    case Some(path) =>
      match read(path)
      case Err(e) => Err(e)
      case Ok(text) => parse(text)
  }

  // ---------------------------------------------------------------------
  // Environment-variable loader

  /** The service name as it appears in variable names: upper case, with
      `-` turned into `_`. */
  function EnvName(name: string): (r: string)
    ensures |r| == |name| && '-' !in r
    ensures forall i :: 0 <= i < |r| ==> !('a' <= r[i] <= 'z')
    ensures forall i :: 0 <= i < |r| ==> r[i] == UpperChar(if name[i] == '-' then '_' else name[i])
  {
    Replace(Upper(name), '-', '_')
  }

  /** The name parts a variable name must begin with. */
  function Prefix(name: string): (r: seq<string>)
    ensures |r| >= 1 && forall i :: 0 <= i < |r| ==> '_' !in r[i]
    ensures Join(r, '_') == EnvName(name)
  {
    JoinSplit(EnvName(name), '_');
    Split(EnvName(name), '_')
  }

  /** `matches_key` applied to the split variable name: the name parts
      are strictly more than the prefix and begin with it.  For a prefix
      of parts without `_`, that is exactly when the name starts with the
      joined prefix and `_`. */
  predicate Matches(prefix: seq<string>, key: string)
  {
    MatchesKey(prefix, Split(key, '_'))
  }

  /** The test of `matches_key` on name parts: the parts are the prefix
      followed by at least one more part. */
  predicate MatchesKey(prefix: seq<string>, keyParts: seq<string>): (b: bool)
    ensures b ==> |keyParts| > |prefix|
    ensures b && |prefix| >= 1 ==>
      Join(keyParts, '_') == Join(prefix, '_') + "_" + Join(keyParts[|prefix|..], '_')
  {
    if |prefix| >= 1 && |keyParts| > |prefix| && keyParts[..|prefix|] == prefix then
      assert keyParts == prefix + keyParts[|prefix|..];
      JoinAppend(prefix, keyParts[|prefix|..], '_');
      true
    else
      |keyParts| > |prefix| && keyParts[..|prefix|] == prefix
  }

  lemma {:induction false} MatchesStartsWith(prefix: seq<string>, key: string)
    ensures |prefix| >= 1 && MatchesKey(prefix, Split(key, '_')) ==> StartsWith(key, Join(prefix, '_') + "_")
    ensures (|prefix| >= 1 && (forall i :: 0 <= i < |prefix| ==> '_' !in prefix[i]) &&
             StartsWith(key, Join(prefix, '_') + "_")) ==> MatchesKey(prefix, Split(key, '_'))
  {
    var parts := Split(key, '_');
    if |prefix| >= 1 && MatchesKey(prefix, parts) {
      var q := parts[|prefix|..];
      assert parts == prefix + q;
      JoinSplit(key, '_');
      JoinAppend(prefix, q, '_');
    }
    if |prefix| >= 1 && (forall i :: 0 <= i < |prefix| ==> '_' !in prefix[i]) &&
       StartsWith(key, Join(prefix, '_') + "_") {
      var n := Join(prefix, '_');
      var tail := key[|n| + 1..];
      assert key == n + ['_'] + tail;
      SplitAppend(n, tail, '_');
      SplitJoin(prefix, '_');
      assert parts == prefix + Split(tail, '_');
    }
  }

  /** The name parts left once the prefix is dropped (never empty). */
  function Rest(prefix: seq<string>, key: string): (r: seq<string>)
    requires Matches(prefix, key)
    ensures |r| >= 1
  {
    Split(key, '_')[|prefix|..]
  }

  /** The top-level configuration key a matching variable sets. */
  function TopKey(prefix: seq<string>, key: string): string
    requires Matches(prefix, key)
  {
    Lower(Rest(prefix, key)[0])
  }

  function LowerAll(parts: seq<string>): (r: seq<string>)
    ensures |r| == |parts|
    ensures forall i :: 0 <= i < |parts| ==> r[i] == Lower(parts[i])
  {
    seq(|parts|, i requires 0 <= i < |parts| => Lower(parts[i]))
  }

  /** The value stored for a raw variable value: its JSON decoding when
      that succeeds, else the raw text. */
  function Leaf(decode: Decoder, raw: string): (r: Value)
    ensures r == Str(raw) || decode(raw) == Some(r)
    ensures decode(raw).Some? ==> r == decode(raw).value
  {
    match decode(raw)
    case Some(v) => v
    case None => Str(raw)
  }

  /** The nesting of fresh single-entry mappings that the loop over the
      middle name parts builds, one level per part (lower-cased), with
      `leaf` at the bottom. */
  function Chain(keys: seq<string>, leaf: Value): (r: Value)
    ensures keys != [] ==> r.Dict? && r.entries.Keys == {Lower(keys[0])}
  {
    if keys == [] then leaf else Dict(map[Lower(keys[0]) := Chain(keys[1..], leaf)])
  }

  /** Following the lower-cased keys through a chain reaches its leaf. */
  lemma {:induction false} ChainReaches(keys: seq<string>, leaf: Value, path: seq<string>)
    ensures Lookup(Chain(keys, leaf), LowerAll(keys) + path) == Lookup(leaf, path)
  {
    if keys != [] {
      assert (LowerAll(keys) + path)[1..] == LowerAll(keys[1..]) + path;
      ChainReaches(keys[1..], leaf, path);
    } else {
      assert LowerAll(keys) + path == path;
    }
  }

  /** A chain holds nothing off its one path: a lookup that leaves the
      path within the chain finds nothing. */
  lemma {:induction false} ChainOnlyPath(keys: seq<string>, leaf: Value, path: seq<string>, i: nat)
    requires i < |keys| && i < |path|
    requires path[..i] == LowerAll(keys)[..i] && path[i] != Lower(keys[i])
    ensures Lookup(Chain(keys, leaf), path) == None
  {
    if i > 0 {
      assert path[0] == path[..i][0] == LowerAll(keys)[..i][0] == Lower(keys[0]);
      assert path[1..][..i - 1] == path[..i][1..];
      assert LowerAll(keys[1..])[..i - 1] == LowerAll(keys)[..i][1..];
      ChainOnlyPath(keys[1..], leaf, path[1..], i - 1);
    }
  }

  /** `dct` walking down the middle name parts: every visited key gets a
      fresh empty mapping, so the walk builds `Chain`.  The mappings are
      created bottom-up here; each one is fresh and reachable only along
      the path, so the order of creation is not observable. */
  method BuildChain(keys: seq<string>, leaf: Value) returns (node: Value)
    ensures node == Chain(keys, leaf)
  {
    node := leaf;
    var j := |keys|;
    while j > 0
      invariant 0 <= j <= |keys|
      invariant node == Chain(keys[j..], leaf)
    {
      j := j - 1;
      assert keys[j..][1..] == keys[j + 1..];
      node := Dict(map[Lower(keys[j]) := node]);
    }
  }

  /** What a matching variable stores under its top-level key. */
  function Contribution(prefix: seq<string>, entry: (string, string), decode: Decoder): Value
    requires Matches(prefix, entry.0)
  {
    Chain(Rest(prefix, entry.0)[1..], Leaf(decode, entry.1))
  }

  /** One pass of the loop over the environment: a non-matching variable
      changes nothing; a matching one replaces its top-level key, and only
      that key, discarding what it held. */
  function EnvStep(prefix: seq<string>, config: Config, entry: (string, string), decode: Decoder): (r: Config)
    ensures !Matches(prefix, entry.0) ==> r == config
    ensures Matches(prefix, entry.0) ==>
      r.Keys == config.Keys + {TopKey(prefix, entry.0)} &&
      r[TopKey(prefix, entry.0)] == Contribution(prefix, entry, decode) &&
      forall k :: k in config && k != TopKey(prefix, entry.0) ==> r[k] == config[k]
    ensures |r| <= |config| + 1
  {
    if Matches(prefix, entry.0) then
      var k := TopKey(prefix, entry.0);
      assert k !in config ==> config[k := Contribution(prefix, entry, decode)].Keys == config.Keys + {k};
      config[k := Contribution(prefix, entry, decode)]
    else config
  }

  /** The configuration built from the whole environment, variable by
      variable in enumeration order. */
  function FromEnviron(prefix: seq<string>, environ: Environ, decode: Decoder): (r: Config)
    ensures |r| <= |environ|
    decreases |environ|
  {
    if environ == [] then map[]
    else EnvStep(prefix, FromEnviron(prefix, environ[..|environ| - 1], decode), environ[|environ| - 1], decode)
  }

  /** `load_from_environ` */
  method LoadFromEnviron(metadata: Metadata, environ: Environ, decode: Decoder) returns (config: Config)
    ensures config == FromEnviron(Prefix(metadata.name), environ, decode)
  {
    var prefix := Prefix(metadata.name);
    config := map[];
    var i := 0;
    while i < |environ|
      invariant 0 <= i <= |environ|
      invariant config == FromEnviron(prefix, environ[..i], decode)
    {
      assert environ[..i + 1] == environ[..i] + [environ[i]];
      FromEnvironSnoc(prefix, environ[..i], environ[i], decode);
      var (key, value) := environ[i];
      var keyParts := Split(key, '_');
      if !MatchesKey(prefix, keyParts) {
        i := i + 1;
        continue;
      }
      var rest := keyParts[|prefix|..];
      var node := BuildChain(rest[1..], Leaf(decode, value));
      assert node == Contribution(prefix, environ[i], decode);
      config := config[Lower(rest[0]) := node];
      i := i + 1;
    }
    assert environ[..|environ|] == environ;
  }

  // ---------------------------------------------------------------------
  // Properties of the prefix and of matching

  /** The prefix depends only on the name with `-` replaced by `_` and
      upper-cased: `foo-bar` and `foo_bar` share a prefix. */
  lemma PrefixOfNormalizedName(a: string, b: string)
    requires Upper(Replace(a, '-', '_')) == Upper(Replace(b, '-', '_'))
    ensures Prefix(a) == Prefix(b)
  {
    UpperReplaceCommute(a);
    UpperReplaceCommute(b);
  }

  /** A variable matches exactly when its name starts with the service's
      variable-name form followed by an underscore; so a variable named
      just `FOO` never matches the service `foo`, and matching is
      case-sensitive. */
  lemma MatchesIffStartsWith(name: string, key: string)
    ensures Matches(Prefix(name), key) <==> StartsWith(key, EnvName(name) + "_")
  {
    MatchesStartsWith(Prefix(name), key);
  }

  /** One row of the matching table, from the service's variable-name
      form `n` followed by `_`. */
  lemma MatchingRow(name: string, key: string, n: string)
    requires EnvName(name) + "_" == n
    ensures Matches(Prefix(name), key) <==> StartsWith(key, n)
  {
    MatchesIffStartsWith(name, key);
  }

  /** Rows of the loader's documented matching table for the service
      `foo`, with a variable that is exactly the prefix. */
  lemma MatchingTableFoo()
    ensures Matches(Prefix("foo"), "FOO_BAR")
    ensures !Matches(Prefix("foo"), "FOO")
  {
    assert EnvName("foo") + "_" == "FOO_";
    MatchingRow("foo", "FOO_BAR", "FOO_");
    MatchingRow("foo", "FOO", "FOO_");
  }

  /** Rows for the service `bar`: neither a later name part nor a
      lower-case variable name matches. */
  lemma MatchingTableBar()
    ensures !Matches(Prefix("bar"), "FOO_BAR")
    ensures !Matches(Prefix("bar"), "foo_bar")
  {
    assert EnvName("bar") + "_" == "BAR_";
    assert "FOO_BAR"[..4][0] == 'F';
    assert "foo_bar"[..4][0] == 'f';
    MatchingRow("bar", "FOO_BAR", "BAR_");
    MatchingRow("bar", "foo_bar", "BAR_");
  }

  /** Rows for the services `foo_bar` and `foo-bar` (the literals are
      passed as parameters so that the solver does not unfold the string
      functions on them). */
  lemma MatchingTableFooBar(underscored: string, hyphenated: string, key: string)
    requires underscored == "foo_bar" && hyphenated == "foo-bar" && key == "FOO_BAR_BAZ"
    ensures Matches(Prefix(underscored), key)
    ensures Matches(Prefix(hyphenated), key)
  {
    assert EnvName(underscored) + "_" == "FOO_BAR_";
    assert EnvName(hyphenated) + "_" == "FOO_BAR_";
    assert StartsWith(key, "FOO_BAR_");
    MatchingRow(underscored, key, "FOO_BAR_");
    MatchingRow(hyphenated, key, "FOO_BAR_");
  }

  // ---------------------------------------------------------------------
  // Properties of the environment loader

  /** Variable `entry` sets the top-level key `k`. */
  predicate SetsKey(prefix: seq<string>, entry: (string, string), k: string)
  {
    Matches(prefix, entry.0) && TopKey(prefix, entry.0) == k
  }

  /** The loaded configuration has exactly the top-level keys that some
      matching variable sets. */
  lemma {:induction false} EnvironKeys(prefix: seq<string>, environ: Environ, decode: Decoder, k: string)
    ensures k in FromEnviron(prefix, environ, decode) <==>
            exists i :: 0 <= i < |environ| && SetsKey(prefix, environ[i], k)
    decreases |environ|
  {
    if environ != [] {
      var init := environ[..|environ| - 1];
      var last := environ[|environ| - 1];
      assert environ == init + [last];
      FromEnvironSnoc(prefix, init, last, decode);
      EnvironKeys(prefix, init, decode, k);
      if exists i :: 0 <= i < |init| && SetsKey(prefix, init[i], k) {
        var i :| 0 <= i < |init| && SetsKey(prefix, init[i], k);
        assert environ[i] == init[i];
      }
      if exists i :: 0 <= i < |environ| && SetsKey(prefix, environ[i], k) {
        var i :| 0 <= i < |environ| && SetsKey(prefix, environ[i], k);
        if i < |init| {
          assert init[i] == environ[i];
        }
      }
    }
  }

  /** The last variable that sets a top-level key decides its whole value:
      earlier variables through the same key are discarded. */
  lemma {:induction false} EnvironLastWins(prefix: seq<string>, environ: Environ, decode: Decoder, i: nat, k: string)
    requires i < |environ| && SetsKey(prefix, environ[i], k)
    requires forall j :: i < j < |environ| ==> !SetsKey(prefix, environ[j], k)
    ensures k in FromEnviron(prefix, environ, decode)
    ensures FromEnviron(prefix, environ, decode)[k] == Contribution(prefix, environ[i], decode)
    decreases |environ|
  {
    var init := environ[..|environ| - 1];
    if i < |environ| - 1 {
      assert init[i] == environ[i];
      forall j | i < j < |init| ensures !SetsKey(prefix, init[j], k) {
        assert init[j] == environ[j];
      }
      EnvironLastWins(prefix, init, decode, i, k);
    }
  }

  /** Following the lower-cased remaining name parts of a variable through
      the loaded configuration reaches its value, JSON-decoded when that
      succeeds and raw otherwise, provided no later variable sets the same
      top-level key. */
  lemma EnvironLookup(prefix: seq<string>, environ: Environ, decode: Decoder, i: nat)
    requires i < |environ| && Matches(prefix, environ[i].0)
    requires forall j :: i < j < |environ| ==> !SetsKey(prefix, environ[j], TopKey(prefix, environ[i].0))
    ensures Lookup(Dict(FromEnviron(prefix, environ, decode)), LowerAll(Rest(prefix, environ[i].0))) ==
            Some(if decode(environ[i].1).Some? then decode(environ[i].1).value else Str(environ[i].1))
  {
    var rest := Rest(prefix, environ[i].0);
    var k := TopKey(prefix, environ[i].0);
    EnvironLastWins(prefix, environ, decode, i, k);
    ChainReaches(rest[1..], Leaf(decode, environ[i].1), []);
    assert LowerAll(rest)[1..] == LowerAll(rest[1..]) + [];
  }

  /** Adding a variable at the end applies one more step. */
  lemma FromEnvironSnoc(prefix: seq<string>, environ: Environ, entry: (string, string), decode: Decoder)
    ensures FromEnviron(prefix, environ + [entry], decode) ==
            EnvStep(prefix, FromEnviron(prefix, environ, decode), entry, decode)
  {
    assert (environ + [entry])[..|environ|] == environ;
  }

  /** A variable that does not match may be dropped from the environment,
      wherever it stands, without changing the result. */
  lemma {:induction false} IgnoresForeignEntry(prefix: seq<string>, before: Environ, entry: (string, string),
                                               after: Environ, decode: Decoder)
    requires !Matches(prefix, entry.0)
    ensures FromEnviron(prefix, before + [entry] + after, decode) == FromEnviron(prefix, before + after, decode)
    decreases |after|
  {
    if after == [] {
      assert before + [entry] + after == before + [entry];
      assert before + after == before;
      FromEnvironSnoc(prefix, before, entry, decode);
    } else {
      var last := after[|after| - 1];
      var init := after[..|after| - 1];
      assert before + [entry] + after == (before + [entry] + init) + [last];
      assert before + after == (before + init) + [last];
      IgnoresForeignEntry(prefix, before, entry, init, decode);
      FromEnvironSnoc(prefix, before + [entry] + init, last, decode);
      FromEnvironSnoc(prefix, before + init, last, decode);
    }
  }

  /** A variable named after the service, an underscore, then `tail`
      matches, and its remaining name parts are the parts of `tail`. */
  lemma RestOfMatchingKey(name: string, tail: string)
    ensures Matches(Prefix(name), EnvName(name) + "_" + tail)
    ensures Rest(Prefix(name), EnvName(name) + "_" + tail) == Split(tail, '_')
  {
    SplitAppend(EnvName(name), tail, '_');
  }

  /** A lone variable `<NAME>_<A>_<B>` loads as `{a: {b: value}}`. */
  lemma TwoPartVariable(name: string, a: string, b: string, raw: string, decode: Decoder)
    requires '_' !in a && '_' !in b
    ensures FromEnviron(Prefix(name), [(EnvName(name) + "_" + (a + "_" + b), raw)], decode) ==
            map[Lower(a) := Dict(map[Lower(b) := Leaf(decode, raw)])]
  {
    RestOfMatchingKey(name, a + "_" + b);
    SplitAppend(a, b, '_');
    SplitWithoutSeparator(a, '_');
    SplitWithoutSeparator(b, '_');
    var key := EnvName(name) + "_" + (a + "_" + b);
    var env := [(key, raw)];
    assert env[..0] == [];
    assert Rest(Prefix(name), key) == [a, b];
    assert [a, b][1..] == [b] && [b][1..] == [];
    assert Chain([b], Leaf(decode, raw)) == Dict(map[Lower(b) := Chain([], Leaf(decode, raw))]);
    assert Contribution(Prefix(name), env[0], decode) == Dict(map[Lower(b) := Leaf(decode, raw)]);
  }

  /** `FOO_BAR_BAZ_QUX=1` loads as `{baz: {qux: 1}}` for the service
      `foo-bar`: the value is the decoded integer, not the text. */
  lemma NestedVariableExample(name: string, key: string, decode: Decoder)
    requires name == "foo-bar" && key == "FOO_BAR_BAZ_QUX" && decode("1") == Some(Int(1))
    ensures FromEnviron(Prefix(name), [(key, "1")], decode) == map["baz" := Dict(map["qux" := Int(1)])]
  {
    var expected := map["baz" := Dict(map["qux" := Int(1)])];
    assert map[Lower("BAZ") := Dict(map[Lower("QUX") := Leaf(decode, "1")])] == expected by {
      assert Lower("BAZ") == "baz";
      assert Lower("QUX") == "qux";
    }
    assert key == EnvName(name) + "_" + ("BAZ" + "_" + "QUX");
    TwoPartVariable(name, "BAZ", "QUX", "1", decode);
  }

  /** Two variables through the same top-level key, `<NAME>_<A>_<B>` then
      `<NAME>_<A>_<C>`: the second rebuilds the path from the top and the
      first one's value is lost. */
  lemma CrossVariableClobbering(name: string, a: string, b: string, c: string,
                                raw1: string, raw2: string, decode: Decoder)
    requires '_' !in a && '_' !in b && '_' !in c
    ensures FromEnviron(Prefix(name), [(EnvName(name) + "_" + (a + "_" + b), raw1),
                                       (EnvName(name) + "_" + (a + "_" + c), raw2)], decode) ==
            map[Lower(a) := Dict(map[Lower(c) := Leaf(decode, raw2)])]
  {
    var e1 := (EnvName(name) + "_" + (a + "_" + b), raw1);
    var e2 := (EnvName(name) + "_" + (a + "_" + c), raw2);
    var env := [e1, e2];
    assert env[..1] == [e1];
    TwoPartVariable(name, a, b, raw1, decode);
    TwoPartVariable(name, a, c, raw2, decode);
    assert [e2][..0] == [];
    assert FromEnviron(Prefix(name), [e2], decode)[Lower(a)] == Contribution(Prefix(name), e2, decode);
  }

  // ---------------------------------------------------------------------
  // Loader combinator

  type Loader = Metadata -> Config

  /** `Configuration.merge`, whose definition is not part of this model:
      the configuration obtained by merging the second argument into the
      first. */
  type Merge = (Config, Config) -> Config

  /** `acc` with the results of `loaders` merged into it, left to right.
      Loaders that return an empty configuration leave `acc` as it is,
      when merging an empty configuration changes nothing. */
  function MergeAll(acc: Config, loaders: seq<Loader>, merge: Merge, metadata: Metadata): (r: Config)
    ensures ((forall c :: merge(c, map[]) == c) &&
             (forall i :: 0 <= i < |loaders| ==> loaders[i](metadata) == map[])) ==> r == acc
    decreases |loaders|
  {
    if loaders == [] then acc
    else merge(MergeAll(acc, loaders[..|loaders| - 1], merge, metadata), loaders[|loaders| - 1](metadata))
  }

  /** The same fold read from the front: merge the first result into `acc`,
      then the rest. */
  lemma {:induction false} MergeAllFront(acc: Config, loaders: seq<Loader>, merge: Merge, metadata: Metadata)
    requires loaders != []
    ensures MergeAll(acc, loaders, merge, metadata) ==
            MergeAll(merge(acc, loaders[0](metadata)), loaders[1..], merge, metadata)
    decreases |loaders|
  {
    var init := loaders[..|loaders| - 1];
    if init == [] {
      assert loaders[1..] == [];
      assert init == [];
    } else {
      MergeAllFront(acc, init, merge, metadata);
      assert init[1..] == loaders[1..][..|loaders| - 2];
      assert loaders[1..][|loaders| - 2] == loaders[|loaders| - 1];
    }
  }

  /** What the loader built by `load_each` returns: the first loader's
      result with every later result merged in, in order.  A single loader
      gives its own result, and so does a first loader followed only by
      loaders returning empty configurations, when merging an empty
      configuration changes nothing. */
  function Combined(loaders: seq<Loader>, merge: Merge, metadata: Metadata): (r: Config)
    requires |loaders| >= 1
    ensures |loaders| == 1 ==> r == loaders[0](metadata)
    ensures ((forall c :: merge(c, map[]) == c) &&
             (forall i :: 1 <= i < |loaders| ==> loaders[i](metadata) == map[])) ==> r == loaders[0](metadata)
  {
    assert forall i :: 0 <= i < |loaders[1..]| ==> loaders[1..][i] == loaders[i + 1];
    MergeAll(loaders[0](metadata), loaders[1..], merge, metadata)
  }

  /** Appending a loader merges its result on top of the rest. */
  lemma CombinedAppend(loaders: seq<Loader>, last: Loader, merge: Merge, metadata: Metadata)
    requires |loaders| >= 1
    ensures Combined(loaders + [last], merge, metadata) ==
            merge(Combined(loaders, merge, metadata), last(metadata))
  {
    var all := loaders + [last];
    assert all[1..][..|all| - 2] == loaders[1..];
    assert all[1..][|all| - 2] == last;
  }

  /** Records, as ghost state, which loaders were called and in what
      order. */
  class CallLog {
    ghost var calls: seq<nat>

    constructor ()
      ensures calls == []
    {
      calls := [];
    }

    /** Calls loader `i` on `metadata` and records the call. */
    method Invoke(loaders: seq<Loader>, i: nat, metadata: Metadata) returns (config: Config)
      requires i < |loaders|
      modifies this
      ensures calls == old(calls) + [i]
      ensures config == loaders[i](metadata)
    {
      calls := calls + [i];
      config := loaders[i](metadata);
    }
  }

  /** The indices `0, 1, ..., n - 1` in order. */
  function Indices(n: nat): (r: seq<nat>)
    ensures |r| == n && forall i :: 0 <= i < n ==> r[i] == i
  {
    if n == 0 then [] else Indices(n - 1) + [n - 1]
  }

  /** The loader returned by `load_each`, applied to `metadata`; every
      loader is called through `log`. */
  method LoadEach(loaders: seq<Loader>, merge: Merge, metadata: Metadata, log: CallLog)
    returns (config: Config)
    requires |loaders| >= 1
    modifies log
    ensures config == Combined(loaders, merge, metadata)
    ensures log.calls == old(log.calls) + Indices(|loaders|)
  {
    config := log.Invoke(loaders, 0, metadata);
    var i := 1;
    while i < |loaders|
      invariant 1 <= i <= |loaders|
      invariant config == MergeAll(loaders[0](metadata), loaders[1..i], merge, metadata)
      invariant log.calls == old(log.calls) + Indices(i)
    {
      var nextConfig := log.Invoke(loaders, i, metadata);
      assert loaders[1..i + 1][..i - 1] == loaders[1..i];
      config := merge(config, nextConfig);
      i := i + 1;
    }
    assert loaders[1..i] == loaders[1..];
  }

  /** Merging in two runs of loaders is merging in their concatenation. */
  lemma {:induction false} MergeAllAppend(acc: Config, first: seq<Loader>, second: seq<Loader>,
                                          merge: Merge, metadata: Metadata)
    ensures MergeAll(acc, first + second, merge, metadata) ==
            MergeAll(MergeAll(acc, first, merge, metadata), second, merge, metadata)
    decreases |second|
  {
    if second == [] {
      assert first + second == first;
    } else {
      assert (first + second)[..|first + second| - 1] == first + second[..|second| - 1];
      MergeAllAppend(acc, first, second[..|second| - 1], merge, metadata);
    }
  }

  /** A `load_each` loader used as the first loader of another `load_each`
      behaves as if its loaders had been listed there directly. */
  lemma NestedLoadEach(inner: seq<Loader>, outer: seq<Loader>, merge: Merge, metadata: Metadata)
    requires |inner| >= 1
    ensures Combined([(m: Metadata) requires |inner| >= 1 => Combined(inner, merge, m)] + outer, merge, metadata) ==
            Combined(inner + outer, merge, metadata)
  {
    var nested: Loader := (m: Metadata) requires |inner| >= 1 => Combined(inner, merge, m);
    assert ([nested] + outer)[1..] == outer;
    assert (inner + outer)[1..] == inner[1..] + outer;
    MergeAllAppend(inner[0](metadata), inner[1..], outer, merge, metadata);
  }

  /** When merging an empty configuration changes nothing, a loader that
      returns an empty configuration may be dropped from any position after the
      first. */
  lemma EmptyLoaderIsNeutral(before: seq<Loader>, empty: Loader, after: seq<Loader>,
                             merge: Merge, metadata: Metadata)
    requires |before| >= 1
    requires empty(metadata) == map[]
    requires forall c :: merge(c, map[]) == c
    ensures Combined(before + [empty] + after, merge, metadata) == Combined(before + after, merge, metadata)
  {
    var acc := before[0](metadata);
    var withEmpty := before[1..] + [empty];
    assert (before + [empty] + after)[0] == before[0];
    assert (before + [empty] + after)[1..] == withEmpty + after;
    assert (before + after)[0] == before[0];
    assert (before + after)[1..] == before[1..] + after;
    assert withEmpty[..|withEmpty| - 1] == before[1..];
    assert MergeAll(acc, withEmpty, merge, metadata) == merge(MergeAll(acc, before[1..], merge, metadata), map[]);
    MergeAllAppend(acc, withEmpty, after, merge, metadata);
    MergeAllAppend(acc, before[1..], after, merge, metadata);
  }

  /** When an empty configuration is a left identity of merge, the result
      is the same as merging every loader's result, the first included,
      into an empty configuration. */
  lemma {:induction false} CombinedFromEmpty(loaders: seq<Loader>, merge: Merge, metadata: Metadata)
    requires |loaders| >= 1
    requires forall c :: merge(map[], c) == c
    ensures Combined(loaders, merge, metadata) == MergeAll(map[], loaders, merge, metadata)
  {
    assert loaders == [loaders[0]] + loaders[1..];
    MergeAllAppend(map[], [loaders[0]], loaders[1..], merge, metadata);
    assert [loaders[0]][..0] == [];
  }

  /** When merge lets the merged-in side win on keys it holds a non-mapping
      value for, the last loader's scalar settings override all earlier
      loaders. */
  lemma LastLoaderWins(loaders: seq<Loader>, merge: Merge, metadata: Metadata, k: string)
    requires |loaders| >= 2
    requires forall a: Config, b: Config :: forall key :: key in b && !b[key].Dict? ==>
               key in merge(a, b) && merge(a, b)[key] == b[key]
    requires k in loaders[|loaders| - 1](metadata) && !loaders[|loaders| - 1](metadata)[k].Dict?
    ensures k in Combined(loaders, merge, metadata)
    ensures Combined(loaders, merge, metadata)[k] == loaders[|loaders| - 1](metadata)[k]
  {
  }
}
