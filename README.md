# microcosm configuration loaders, in Dafny

A model of `microcosm/loaders.py`. A loader takes the service metadata and
returns a configuration. The model covers three loaders:

- The settings-file loader skeleton (`get_config_filename`, `_load_from_file`).
  An unset `<NAME>_SETTINGS` variable yields an empty configuration. Otherwise
  the loader reads the named file and parses its text, and any read or parse
  error is passed on.
- The environment-variable loader (`load_from_environ`). Variables whose
  `_`-split name strictly extends the service's upper-cased, `-`→`_` prefix
  become nested keys. Every intermediate mapping on a variable's path is
  freshly created, so the last variable through a top-level key decides that
  key's whole value.
- The combinator (`load_each`). It runs the loaders in order and merges each
  later result into the first.

Files:

- `wrappers.dfy`: `Option` and `Result`.
- `strings.dfy`: the Python string built-ins the loader uses (`upper`,
  `lower`, one-character `replace`, `split` on `_`), with split/join lemmas.
- `configuration.dfy`: the value tree (`Value`, `Config = map<string, Value>`)
  and path lookup.
- `loaders.dfy`: the loaders and their properties.

Foreign parts are parameters:

- `json.loads` is `decode: string -> Option<Value>`, where `None` stands for
  `ValueError`.
- `inflection.underscore` is `underscore: string -> string`.
- Reading a file is `read: string -> Result<string, LoadError>`.
- The format parser is `parse: string -> Result<Config, LoadError>`.
- `Configuration.merge` is `merge: (Config, Config) -> Config`.
- The process environment is an ordered `seq<(string, string)>`, because the
  environment loader's result depends on enumeration order.

The combinator starts from the first loader's own result and does not merge
it into an empty configuration. An alternative description starts from an
empty configuration merged with the first result. The model follows the code.
`CombinedFromEmpty` shows that the two agree whenever merging into an empty
configuration is the identity.

## Model

| member | source | states |
|---|---|---|
| `Strings.Split` | microcosm/loaders.py:101 | `key.split("_")` has at least one part, no part contains `_`, and there is exactly one part iff the text has no `_` |
| `Strings.JoinSplit` | microcosm/loaders.py:101 | joining the split parts with `_` gives back the variable name, so splitting loses nothing |
| `Strings.SplitJoin` | microcosm/loaders.py:94 | splitting parts that were joined with `_`, none of them containing `_`, gives back exactly those parts |
| `Loaders.EnvGet` | microcosm/loaders.py:24-27 | the lookup is `None` iff no environment entry has the key; otherwise the value comes from the last binding of that key |
| `Loaders.SettingsVariable` | microcosm/loaders.py:23 | the variable name is the snake-cased service name upper-cased character by character, so no lower-case ASCII letter is left, followed by `_SETTINGS` |
| `Loaders.GetConfigFilename` | microcosm/loaders.py:17-27 | the result is `None` iff `<UNDERSCORED NAME>_SETTINGS` is unset; otherwise it is the value of the last binding of that variable |
| `Loaders.LoadFromFile` | microcosm/loaders.py:30-44 | when no environment entry is named `<UNDERSCORED NAME>_SETTINGS` the result is `Ok({})` for every reader and parser, so no file is read; otherwise a read error is returned as is, and a successful read returns the parse of the file's text |
| `Loaders.EnvName` | microcosm/loaders.py:94 | the name keeps its length, has no `-` and no lower-case ASCII letter, and each character is the upper-cased character of the name, with `-` read as `_` |
| `Loaders.Prefix` | microcosm/loaders.py:94 | the prefix has at least one part, no part contains `_`, and joining its parts with `_` gives back the variable-name form of the service name |
| `Loaders.MatchesKey` | microcosm/loaders.py:96-97 | a match leaves at least one name part after the prefix, and for a non-empty prefix the variable name is the `_`-joined prefix, then `_`, then the `_`-joined remaining parts |
| `Loaders.MatchesStartsWith` | microcosm/loaders.py:96-97 | for any non-empty prefix, a match means the variable name starts with the `_`-joined prefix and `_`; if no prefix part contains `_`, the converse holds too |
| `Loaders.PrefixOfNormalizedName` | microcosm/loaders.py:94 | two names with the same upper-cased, `-`→`_` form give the same prefix (`foo-bar` and `foo_bar`) |
| `Loaders.MatchesIffStartsWith` | microcosm/loaders.py:94-97 | `matches_key` holds iff the variable name starts with the service's upper-cased, `-`→`_` name followed by `_`; a name equal to the prefix never matches, and matching is case-sensitive |
| `Loaders.MatchingTableFoo` | microcosm/loaders.py:85-92 | `FOO_BAR` matches `foo`; `FOO` does not match `foo` |
| `Loaders.MatchingTableBar` | microcosm/loaders.py:85-92 | neither `FOO_BAR` nor `foo_bar` matches `bar` |
| `Loaders.MatchingTableFooBar` | microcosm/loaders.py:85-92 | `FOO_BAR_BAZ` matches both `foo_bar` and `foo-bar` |
| `Loaders.RestOfMatchingKey` | microcosm/loaders.py:94-107 | `<NAME>_<tail>` matches, and the name parts left after the prefix are exactly `tail.split("_")` |
| `Loaders.Chain` | microcosm/loaders.py:105-110 | each level built along the path is a mapping with exactly one key, the lower-cased name part |
| `Loaders.ChainReaches` | microcosm/loaders.py:105-115 | following the lower-cased parts through the built path reaches the stored value |
| `Loaders.ChainOnlyPath` | microcosm/loaders.py:105-110 | a lookup that leaves the built path at any level finds nothing |
| `Loaders.BuildChain` | microcosm/loaders.py:105-110 | the loop that gives every visited key a fresh empty mapping builds `Chain` of the name parts after the first |
| `Loaders.Leaf` | microcosm/loaders.py:112-115 | the stored value is the decoder's result whenever it succeeds, and the raw text otherwise; the decode step never fails |
| `Loaders.EnvStep` | microcosm/loaders.py:100-115 | a non-matching variable leaves the configuration unchanged; a matching one adds or replaces its top-level key `lower(rest[0])` with the fresh chain ending in the decoded value, and every other key keeps its value |
| `Loaders.FromEnviron` | microcosm/loaders.py:100-115 | the configuration the loop builds has at most one top-level key per environment variable |
| `Loaders.FromEnvironSnoc` | microcosm/loaders.py:100 | one more variable at the end of the environment applies one more step to the configuration |
| `Loaders.LoadFromEnviron` | microcosm/loaders.py:74-116 | the loop over the environment computes the left fold `FromEnviron` of the per-variable step |
| `Loaders.EnvironKeys` | microcosm/loaders.py:100-115 | a top-level key is present iff some matching variable sets it |
| `Loaders.EnvironLastWins` | microcosm/loaders.py:105-115 | a top-level key's value is exactly what the last variable setting it builds, and earlier variables through that key are discarded |
| `Loaders.EnvironLookup` | microcosm/loaders.py:105-115 | unless a later variable resets its top-level key, a variable's lower-cased path leads to its JSON decoding when that succeeds and to its raw text otherwise |
| `Loaders.IgnoresForeignEntry` | microcosm/loaders.py:100-103 | removing a non-matching variable from any position in the environment does not change the result |
| `Loaders.TwoPartVariable` | microcosm/loaders.py:105-115 | a lone `<NAME>_<A>_<B>=v` loads as `{a: {b: v}}` |
| `Loaders.NestedVariableExample` | microcosm/loaders.py:105-115 | `FOO_BAR_BAZ_QUX=1` for `foo-bar` loads as `{baz: {qux: 1}}`, with the decoded integer as the value |
| `Loaders.CrossVariableClobbering` | microcosm/loaders.py:105-110 | `<NAME>_<A>_<B>` followed by `<NAME>_<A>_<C>` leaves only `{a: {c: v2}}`, because the second variable resets the path |
| `Loaders.MergeAll` | microcosm/loaders.py:126-128 | if merging `{}` changes nothing, loaders that all return `{}` leave the accumulator unchanged |
| `Loaders.MergeAllFront` | microcosm/loaders.py:126-128 | the fold can be read from the front: merge the first result into the accumulator, then the rest |
| `Loaders.Combined` | microcosm/loaders.py:124-129 | a single loader gives its own result; so does a first loader followed only by loaders returning `{}`, if merging `{}` changes nothing |
| `Loaders.CombinedAppend` | microcosm/loaders.py:126-128 | appending a loader merges its result on top of the combined result of the others |
| `Loaders.CallLog.Invoke` | microcosm/loaders.py:127 | calling loader `i` returns its result on the metadata and appends `i` to the call log |
| `Loaders.LoadEach` | microcosm/loaders.py:124-129 | the result is the first loader's result with each later result merged in left to right; every loader is called through the log, once each, in index order |
| `Loaders.MergeAllAppend` | microcosm/loaders.py:126-128 | merging in two runs of loaders equals merging in their concatenation |
| `Loaders.NestedLoadEach` | microcosm/loaders.py:119-130 | a `load_each` loader used first inside another `load_each` acts like listing its loaders there directly |
| `Loaders.EmptyLoaderIsNeutral` | microcosm/loaders.py:124-129 | if merging `{}` is the identity, a loader that returns `{}` can be dropped from any position after the first |
| `Loaders.CombinedFromEmpty` | microcosm/loaders.py:124-129 | if `{}` is a left identity of merge, starting from the first result equals starting from `{}` |
| `Loaders.LastLoaderWins` | microcosm/loaders.py:124-129 | if merge lets the merged-in side win on its non-mapping values, the last loader's scalar settings override all earlier ones |

## Left out

- `load_from_json_file` and `load_from_python_file` (microcosm/loaders.py:47-71) are not modelled. They pass `_load_from_file` a foreign parser: `json.loads`, or executing the file text as Python and keeping the bindings whose names do not start with `_`. Both are covered only through the abstract `parse` parameter of `LoadFromFile`.
- `Loaders.Matches` (the split variable name tested by `matches_key`) has no contract of its own; `Loaders.MatchesStartsWith` and `Loaders.MatchesIffStartsWith` state what it means.
- Opening, reading and closing the file are the `read` parameter. File-access and parse errors are whatever `read` and `parse` return.
- `Configuration` and its `merge` are defined in `microcosm/configuration.py`, which is not part of this model. Merge is a parameter that returns the merged value, where the source merges in place. No deep-merge law is assumed, except as an explicit hypothesis of a lemma.
- `json.loads` and `inflection.underscore` are parameters. Floats are modelled as `real`. A `real` cannot hold the `nan` and `inf` values that `json.loads` produces for `NaN`, `Infinity` or `1e400`.
- `Strings.Upper` and `Strings.Lower` map ASCII letters only. Python's Unicode case mapping is not modelled.
- Key insertion order of the resulting mappings is not modelled: a configuration is a Dafny `map`.
- The downward walk through the `dct` alias (microcosm/loaders.py:105-110) is modelled on values. `BuildChain` creates the fresh mappings bottom-up. Every mapping on the path is new and reachable only along it, so no aliasing or creation order can be observed.
- `LoadEach` requires at least one loader. The source indexes `loaders[0]` and fails on an empty list. Loaders are pure, total functions here. The order and number of calls are therefore recorded in a ghost call log, filled as each loader is called.
- `LoadEach`: a loader that raises is not modelled. In the source a read or parse error of the settings-file loader (microcosm/loaders.py:42-44) propagates out of `_load_each`, which has no handler, so the later loaders are never called. `LoadFromFile` returns a `Result` and is therefore not itself a `Loader`; only its `Ok` value can stand for one.
- A decoded JSON string and the raw text are both `Str`. The module is Python 2 code, so `json.loads` returns a `unicode` string while the raw environment value is a byte `str`. The model does not tell the two apart. They compare equal for ASCII text.
