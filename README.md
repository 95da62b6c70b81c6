# merge-conf, modelled in Dafny

merge-conf builds one configuration object from several sources: environment
variables, configuration files and parsed command-line arguments. Each
source's `read()` yields a dict. The dicts are merged, one after another and
in the order the sources were added, into a namespace object. Nested dicts
become nested namespaces.

This project models the core of the package:

- **`_NamespaceMerger.merge`** (`namespace_merger.dfy`, over the tree types of
  `config_tree.dfy`). It merges one mapping into a mutable `Namespace` in
  place. A string or list value is assigned as it is. A dict value replaces
  whatever was at its key by a fresh namespace holding the merge of the dict.
  The merge loop takes the keys in an arbitrary order, and the outcome is
  proved not to depend on that order.
- **`MultiConfigurationSource`** (`multi_source.dfy`). It holds an append-only
  list of sources and one target namespace. `read_configuration` is proved
  equal to the left fold `ReadAll` of the merge over what the sources read.
  The fold stops at the first failing source, and there is no rollback.
- **`ConfigurationProvider`** (`provider.dfy`). It is a fluent builder whose
  field holds the aggregator until `build()` sets it to `None`. Every later
  call raises `ConfigurationProvidedError`.
- **`EnvironmentVariableSource`** (`env_source.dfy`). Its steps are:
  - select the names that start with the prefix;
  - strip the characters of the prefix with `str.lstrip`;
  - split the rest at the separator;
  - walk or create the nested dicts and write the last segment;
  - split the value at the list separator when the separator occurs in it.

  `read()` is an imperative loop. Its inner walk advances a cursor through
  the result dict. Both are proved equal to the functional fold `Decompose`.
  The loop converts the value after the walk, as the code does. The
  functional step converts it before. The two agree because an empty list
  separator fails at the first selected name. At that point the result is
  still empty, so the walk cannot fail first.

`src/multiconf/__init__.py` is a line-for-line copy of
`src/merge_conf/__init__.py` under the package's former name. The two differ
only in the header comment. Every row below that cites
`src/merge_conf/__init__.py` holds for `src/multiconf/__init__.py` at the
same lines:

- the namespace merger: 77-114;
- `MultiConfigurationSource`: 117-173;
- `ConfigurationProvider`: 176-286.

Python exceptions are modelled as the `Failure` case of a `Result`:

- `ConfigurationError` from a file parser;
- `ConfigurationProvidedError` from the provider;
- the `ValueError` of `split("")`;
- the `AttributeError`/`TypeError` raised when the walk meets a string or
  list where it needs a dict.

The outside world is a parameter (`MultiSource.World`). It holds the
environment as a sequence of (name, value) pairs in `os.environ` order. It
also holds, for each path that is a file, the outcome of loading it.

Where the documentation and the code disagree, the model follows the code:

- The osenv docstring (`src/merge_conf/osenv.py:14-15`) says that
  `MYAPP_DB_HOST` becomes `db.host`. The code strips the prefix's
  characters, leaves the separator, and so yields the path
  `["", "DB", "HOST"]`. The result is `{"": {"DB": {"HOST": ...}}}`
  (`EnvSource.LeadingEmptySegment`; `EnvSource.DecomposeExample` works a
  similar environment through `read`).
- The prefix is removed as a set of characters, not as a literal prefix
  (`EnvSource.CharacterSetStrip`).

## Model

| member | source | states |
|---|---|---|
| ConfigTree.ToNode | src/merge_conf/__init__.py:105-112 | a value becomes a leaf when it is a string or list and a namespace exactly when it is a dict |
| ConfigTree.ToValueToNode | src/merge_conf/__init__.py:109-112 | the namespace built from a dict gives back exactly that dict: nothing is lost or added in the recursive merge |
| ConfigTree.ToNodeToValue | src/merge_conf/__init__.py:109-112 | every namespace tree is the one built from its own dict view, so the two representations correspond one to one |
| ConfigTree.MergedKeepsAbsentKeys | src/merge_conf/__init__.py:104-112 | after a merge the keys are the old keys plus the mapping's; a key absent from the mapping keeps its prior value |
| ConfigTree.MergedAssignsLeaf | src/merge_conf/__init__.py:105-106 | a string or list value is what the key holds afterwards, whatever was there before (leaf or namespace) |
| ConfigTree.MergedReplacesSubtree | src/merge_conf/__init__.py:107-112 | a dict value leaves a namespace whose content is exactly the dict, independent of the prior attributes (replaced, not deep-merged) |
| ConfigTree.MergedIdempotent | src/merge_conf/__init__.py:104-112 | merging the same mapping twice gives the same attributes as merging it once |
| ConfigTree.MergedIntoFresh | src/merge_conf/__init__.py:109-111 | merging a dict into a fresh `Namespace` yields the namespace that the dict becomes |
| ConfigTree.NestedMergeReplaces | src/merge_conf/__init__.py:107-112 | merging `{a: {b: 1}}` then `{a: {c: 2}}` leaves `a` holding only `c` |
| NamespaceMerger.Namespace.constructor | src/merge_conf/__init__.py:71-74 | a new `Namespace` has no attributes |
| NamespaceMerger.Merger.constructor | src/merge_conf/__init__.py:82-90 | the merger holds the given namespace, or a fresh empty one when given none |
| NamespaceMerger.Merger.Merge | src/merge_conf/__init__.py:92-114 | returns the very namespace it holds; `None` changes nothing; otherwise the attributes become `Merged(old attributes, values)`, for every order in which the keys are visited |
| NamespaceMerger.AsWrittenEntry | src/merge_conf/__init__.py:105-108 | as written, a value fails exactly when it is a dict; any other value is assigned as its node |
| NamespaceMerger.AsWrittenRejectsNested | src/merge_conf/__init__.py:107-112 | every nested dict fails as written, where the intended code builds a namespace holding exactly that dict |
| NamespaceMerger.Merger.MergeAsWritten | src/merge_conf/__init__.py:92-114 | as written, `merge` succeeds exactly when no value is a dict, and then matches `Merge`; on failure no attribute is lost, each key holds its prior value or the leaf already assigned, and the result is `Merged` of the keys visited before some not-yet-visited dict value (a partial update) |
| EnvSource.NewEnvSettings | src/merge_conf/osenv.py:28-42 | a `None` prefix is stored as `""`; the separators are stored as given, `_` and `,` when omitted |
| EnvSource.DefaultSeparators | src/merge_conf/osenv.py:29 | with the separators omitted, the settings are the prefix (or `""`), `_` and `,` |
| EnvSource.LStripSpec | src/merge_conf/osenv.py:91 | `lstrip` keeps a suffix; every dropped character is in the prefix's character set; the kept part does not start with one |
| EnvSource.SplitJoin | src/merge_conf/osenv.py:92 | joining the parts of a split with the separator gives back the string |
| EnvSource.JoinSplit | src/merge_conf/osenv.py:92 | splitting the join of parts that hold no separator character gives back the parts |
| EnvSource.Split | src/merge_conf/osenv.py:92 | `str.split` yields at least one part, and no part contains the separator |
| EnvSource.SplitFromPartsFree | src/merge_conf/osenv.py:92 | the left-to-right scan cuts at every occurrence: no part it yields contains the separator |
| EnvSource.SplitFromCountIff | src/merge_conf/osenv.py:105-107 | a split yields more than one part exactly when the separator occurs |
| EnvSource.SanitizeKey | src/merge_conf/osenv.py:81-94 | fails exactly for an empty separator; otherwise a non-empty path whose join with the separator is the stripped name, no segment of which contains the separator, with two or more segments exactly when the separator occurs |
| EnvSource.SanitizeValue | src/merge_conf/osenv.py:96-111 | fails exactly for an empty list separator; when the separator occurs, a list of at least two parts that joins back to the value and none of which contains the separator; the raw string, untrimmed, when it does not |
| EnvSource.InsertThenGet | src/merge_conf/osenv.py:60-67 | after a successful walk the value sits at the path, and the top-level keys gain only the first segment |
| EnvSource.InsertKeepsOtherPaths | src/merge_conf/osenv.py:60-67 | a walk leaves the value at every path that leaves its own unchanged |
| EnvSource.InsertFailsIff | src/merge_conf/osenv.py:61-67 | the walk fails exactly when some proper prefix of the path holds a string or list, and the error is `NotADict` for that variable |
| EnvSource.SelectedMembers | src/merge_conf/osenv.py:52-56 | the filter keeps a variable exactly when it is in the environment and its name starts with the prefix |
| EnvSource.MappedVariables | src/merge_conf/osenv.py:52-56 | a name is selected exactly when some variable has it and it starts with the prefix |
| EnvSource.SelectedAll | src/merge_conf/osenv.py:52-56 | when every name starts with the prefix, the filter keeps the whole environment, in order |
| EnvSource.EmptyPrefixSelectsAll | src/merge_conf/osenv.py:39 | an empty prefix selects every variable, in environment order |
| EnvSource.PlainPrefixMatch | src/merge_conf/osenv.py:55 | selection is a plain prefix test: prefix `DB` selects `DBHOST`, whose path is `["HOST"]` |
| EnvSource.CharacterSetStrip | src/merge_conf/osenv.py:91 | prefix `APP` strips `APPPATH` to `TH`: characters of the set are removed, not the literal prefix |
| EnvSource.LeadingEmptySegment | src/merge_conf/osenv.py:91-92 | prefix, separator, rest decomposes into a path of two or more segments whose first is empty (when the separator does not start with a prefix character) |
| EnvSource.KeyOfSegments | src/merge_conf/osenv.py:90-92 | the prefix followed by separator-joined segments (the first empty) decomposes back into exactly those segments, when the separator is one character outside the prefix that no segment holds |
| EnvSource.NameEqualToPrefix | src/merge_conf/osenv.py:90-92 | a name equal to the prefix decomposes into `[""]` |
| EnvSource.DecomposeExample | src/merge_conf/osenv.py:50-69 | `APP_DB_HOST=localhost`, `APP_DB_PORTS=5432,5433`, `OTHER=x` read as `{"": {"DB": {"HOST": "localhost", "PORTS": ["5432", "5433"]}}}` |
| EnvSource.ShorterNameReplacesBranch | src/merge_conf/osenv.py:66-67 | `APP_A_B=1` then `APP_A=2` read as `{"": {"A": "2"}}`: a later, shorter name replaces the dict at its path by a string |
| EnvSource.LongerNameCollides | src/merge_conf/osenv.py:61-67 | `APP_A=2` then `APP_A_B=1` fail on `APP_A_B`: the walk meets a string where it needs a dict |
| EnvSource.LastWriterWins | src/merge_conf/osenv.py:57-67 | after a successful read a selected variable's converted value sits at its path unless a later selected variable's path meets it |
| EnvSource.EmptySeparatorFails | src/merge_conf/osenv.py:92 | with nothing selected the result is empty; with something selected an empty separator or list separator makes `read` fail |
| EnvSource.UnselectedContributeNothing | src/merge_conf/osenv.py:50-57 | dropping the variables the prefix does not select leaves the result unchanged |
| EnvSource.CreateStep | src/merge_conf/osenv.py:62-64 | creating an empty dict for an absent segment points `items` at it and does not change the walk's outcome |
| EnvSource.ReuseStep | src/merge_conf/osenv.py:62-64 | a present segment is followed into the node already there |
| EnvSource.WalkIntermediates | src/merge_conf/osenv.py:60-64 | the cursor walk ends at the node the path's intermediate segments designate, with an updated dict that completes as the functional walk would; it fails exactly as that walk does |
| EnvSource.ProcessVariable | src/merge_conf/osenv.py:58-67 | processing one variable in code order gives the same result or error as the functional step |
| EnvSource.Read | src/merge_conf/osenv.py:44-69 | `read()` returns exactly `Decompose` of the configuration and the environment snapshot |
| MultiSource.Contents | src/merge_conf/base.py:73-83 | a path that is not a file reads as an empty dict; an argument source reads as its own mapping |
| MultiSource.ReadSource | src/merge_conf/__init__.py:171 | `source.read()` returns what the source's specification says, running the environment source's loop |
| MultiSource.ReadAllFailsIff | src/merge_conf/__init__.py:167-173 | `read_configuration` raises exactly when one of the sources fails |
| MultiSource.FailureStopsRead | src/merge_conf/__init__.py:170-172 | once a source has failed, later sources are neither read nor merged |
| MultiSource.FirstFailureWins | src/merge_conf/__init__.py:167-173 | when source k is the first to fail, its error is raised and the target keeps the fold of the sources before k |
| MultiSource.ReadAllOverlays | src/merge_conf/__init__.py:167-173 | reading into a target gives its prior attributes overlaid by what the same read gives on an empty target |
| MultiSource.RepeatedReadIsStable | src/merge_conf/__init__.py:167-173 | a repeated `read_configuration` against the same world re-applies every source and leaves the target as the first call did |
| MultiSource.LaterSourceWins | src/merge_conf/__init__.py:170-172 | when every source reads, a key holds the value of the last source that has it |
| MultiSource.UntouchedKeysKept | src/merge_conf/__init__.py:170-172 | a key that no source provides keeps its prior value |
| MultiSource.Present | src/merge_conf/__init__.py:153-155 | a source is kept exactly when it occurs as a non-`None` item |
| MultiSource.PresentAppend | src/merge_conf/__init__.py:153-155 | skipping `None`s keeps the order of the rest |
| MultiSource.MultiConfigurationSource.constructor | src/merge_conf/__init__.py:124-134 | the target is the given object, or a fresh empty `Namespace`, and there are no sources |
| MultiSource.MultiConfigurationSource.AddSource | src/merge_conf/__init__.py:136-144 | `None` is ignored; any other source goes last and earlier sources keep their order |
| MultiSource.MultiConfigurationSource.AddSources | src/merge_conf/__init__.py:146-155 | `None` is ignored; otherwise the non-`None` items go last in iteration order |
| MultiSource.MultiConfigurationSource.ReadConfiguration | src/merge_conf/__init__.py:157-173 | the target's new attributes are the fold `ReadAll` of the sources in order; on success the target itself is returned, otherwise the first error |
| MultiSource.ReadWithoutSources | src/merge_conf/__init__.py:167-173 | with no sources, the given object is returned untouched, or a fresh empty `Namespace` when none was given |
| Provider.FileSources | src/merge_conf/__init__.py:216-217 | one source per file, built by the factory, in file order |
| Provider.ConfigurationProvider.constructor | src/merge_conf/__init__.py:181-190 | a fresh aggregator with no sources around the existing object, or a fresh namespace |
| Provider.ConfigurationProvider.FromConfigurationFiles | src/merge_conf/__init__.py:192-219 | after `build` it raises `ConfigurationProvidedError`; before, it appends one source per file in order and returns the provider |
| Provider.ConfigurationProvider.FromOsEnvironment | src/merge_conf/__init__.py:221-240 | after `build` it raises; before, it appends one environment source with the given prefix and splitters, `_` and `,` when omitted |
| Provider.EnvironmentWithDefaults | src/merge_conf/__init__.py:221-240 | `from_os_environment(prefix)` then `build()` gives an aggregator over a fresh empty namespace with one environment source splitting on `_` and `,` |
| Provider.ConfigurationProvider.FromCommandLine | src/merge_conf/__init__.py:242-258 | after `build` it raises; before, it appends the arguments as a source |
| Provider.ConfigurationProvider.Build | src/merge_conf/__init__.py:260-286 | the first call returns the aggregator and forgets it; every later call raises `ConfigurationProvidedError` |
| Provider.BuildOnlyOnce | src/merge_conf/__init__.py:260-286 | `build()` succeeds once, with the given object as target and the sources added before; a second `build` and a later `from_*` both raise |

## Left out

- File I/O and the format parsers (`json.py`, `yaml.py`, `toml.py`, `configparser.py`, `module.py`). A file source is read through `MultiSource.World.files`: the outcome of loading each path that is a file. The parsers' own defects are outside the model.
- `dotenv.py`: `load_dotenv` changes the process environment, which is a foreign call. Only the decomposition that source inherits is modelled.
- `os.environ`: the environment is a parameter, a sequence of (name, value) pairs in iteration order. Names are unique in a real environment. The model does not need that: `EnvSource.ValueOf` takes the first pair with the name.
- The `issubclass` assertion of `from_configuration_files` (line 214) is reflection. The factory is a function from path to source. Note that the default factory `ConfigFileConfigurationSource` does not derive from `FileBasedConfigurationSource` (src/merge_conf/configparser.py:21), so the default argument fails that assertion.
- `Environment` and `_LinuxEnvironment` (lines 289-481): path discovery through the `xdg` library, the home directory and `isfile`, which is platform I/O.
- Python truthiness in `namespace or Namespace()` and `config or Namespace()`: the argument is an `Option`, and `None` means a fresh namespace. A falsy user object is not modelled.
- `setattr` on arbitrary objects: the target is a `Namespace` whose `attrs` is its `__dict__`. Other attributes and properties of a user object are not modelled.
- Values other than strings, lists of strings and dicts (numbers, booleans and the like from parsers) are not modelled. They would be assigned as leaves like strings.
- The `key is None` and `value is None` branches of `__sanitize_key` and `__sanitize_value` (lines 94 and 111): environment names and values are never `None`.
- Nested namespaces are stored as values inside their parent, not as shared objects. A nested namespace is always fresh and referenced only by its parent, so no aliasing is lost.
- NotADict: the variable's name is added by the model. Python raises an `AttributeError` or `TypeError` (src/merge_conf/osenv.py:62 and 67) that does not name the variable.
- Split: for a multi-character separator that can overlap itself (such as `aa`), its contract does not say that the cuts are the leftmost ones. The definition of `SplitFrom` cuts leftmost, as `str.split` does. For one-character separators, including the defaults, `JoinSplit` shows that the parts are unique.
- The order of `dict.items()` in `merge` is left arbitrary. The outcome of the corrected `Merge` is proved the same for every order. Under `MergeAsWritten`, which leaves are assigned before the failure depends on that order, so its contract only says that the assigned keys are some set visited before a dict value.

## Findings

| source | as written | input that shows it | evidently intended | confidence | as-written member | corrected member |
|---|---|---|---|---|---|---|
| src/merge_conf/__init__.py:108 | `value.__dict__` is read on a value that is a `dict`; a dict has no `__dict__`, so `merge` raises `AttributeError` on every nested mapping | `merge({"db": {"host": "h"}})` | merge the nested dict itself into a fresh `Namespace` (lines 109-112), so that `db` holds a namespace with `host = "h"` | high, not executed | NamespaceMerger.Merger.MergeAsWritten | NamespaceMerger.Merger.Merge |

The same defect sits at the same line of `src/multiconf/__init__.py`. The
as-written model is `NamespaceMerger.AsWrittenEntry` and
`NamespaceMerger.Merger.MergeAsWritten`. `NamespaceMerger.AsWrittenRejectsNested`
exhibits the failure. The rest of the model uses the corrected
`NamespaceMerger.Merger.Merge`. `ConfigTree.ToValueToNode` proves that its
nested namespace holds exactly the nested dict.
