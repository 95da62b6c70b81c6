/**
 * `MultiConfigurationSource` (src/merge_conf/__init__.py:117-173): an
 * append-only list of sources read one after another into one target
 * namespace.
 *
 * What a source reads depends on the outside world at the time of the
 * call, which is a parameter here: a snapshot of the environment and the
 * outcome of loading each existing file.
 */
module MultiSource {
  import opened Wrappers
  import opened Base
  import opened ConfigTree
  import opened NamespaceMerger
  import EnvSource

  /** The sources of the package, by what their `read()` consults:
      `EnvironmentVariableSource`, a file-based source (whatever its format)
      and `ArgParseSource`, which hands back a namespace's `__dict__`. */
  datatype Source =
    | EnvironmentSource(settings: EnvSource.EnvSettings)
    | FileSource(path: string)
    | ArgumentsSource(arguments: Mapping)

  /** The outside world when `read_configuration` runs: the environment
      variables, and for each path that is a file the outcome of loading
      it (its mapping, or the `ConfigurationError` its parser raises). */
  datatype World = World(environ: EnvSource.Environment, files: map<string, Result<Mapping, ConfigError>>)

  /** What `source.read()` returns or raises: a path that is not a file
      reads as an empty mapping (src/merge_conf/base.py:73-83). */
  function Contents(source: Source, world: World): (r: Result<Mapping, ConfigError>)
    ensures source.FileSource? && source.path !in world.files ==> r == Success(map[])
    ensures source.ArgumentsSource? ==> r == Success(source.arguments)
  {
    match source
    case EnvironmentSource(settings) => EnvSource.Decompose(settings, world.environ)
    case FileSource(path) => if path in world.files then world.files[path] else Success(map[])
    case ArgumentsSource(arguments) => Success(arguments)
  }

  /** `source.read()`, running the environment source's own loop. */
  method ReadSource(source: Source, world: World) returns (r: Result<Mapping, ConfigError>)
    ensures r == Contents(source, world)
  {
    match source
    case EnvironmentSource(settings) =>
      r := EnvSource.Read(settings, world.environ);
    case FileSource(path) =>
      r := if path in world.files then world.files[path] else Success(map[]);
    case ArgumentsSource(arguments) =>
      r := Success(arguments);
  }

  // ---------------------------------------------------------------------
  // The fold that read_configuration performs
  // ---------------------------------------------------------------------

  /** The attributes of the target after a read, and the error that ended
      it early, if any. */
  datatype Outcome = Outcome(attrs: map<string, Node>, error: Option<ConfigError>)

  /** Reading `sources` in order into a target holding `attrs`: each
      mapping is merged as it is read; the first source that fails ends the
      read, and what was merged before stays merged. */
  function ReadAll(attrs: map<string, Node>, sources: seq<Source>, world: World): (outcome: Outcome)
    decreases |sources|
  {
    if sources == [] then Outcome(attrs, None)
    else
      var prior := ReadAll(attrs, sources[..|sources| - 1], world);
      if prior.error.Some? then prior
      else
        match Contents(sources[|sources| - 1], world)
        case Failure(e) => Outcome(prior.attrs, Some(e))
        case Success(m) => Outcome(Merged(prior.attrs, m), None)
  }

  /** The read fails exactly when one of the sources fails. */
  lemma {:induction false} ReadAllFailsIff(attrs: map<string, Node>, sources: seq<Source>, world: World)
    ensures ReadAll(attrs, sources, world).error.Some? <==>
      exists i :: 0 <= i < |sources| && Contents(sources[i], world).Failure?
    decreases |sources|
  {
    if sources != [] {
      var front := sources[..|sources| - 1];
      var last := |sources| - 1;
      ReadAllFailsIff(attrs, front, world);
      if ReadAll(attrs, front, world).error.Some? {
        var i :| 0 <= i < |front| && Contents(front[i], world).Failure?;
        assert sources[i] == front[i];
      } else if Contents(sources[last], world).Failure? {
        assert ReadAll(attrs, sources, world).error.Some?;
      } else {
        forall i | 0 <= i < |sources| ensures Contents(sources[i], world).Success? {
          if i < last {
            assert sources[i] == front[i];
          }
        }
      }
    }
  }

  /** Once a prefix of the sources has failed, the sources after it are not
      read: the outcome is the prefix's. */
  lemma {:induction false} FailureStopsRead(attrs: map<string, Node>, sources: seq<Source>, world: World, k: nat)
    requires k <= |sources| && ReadAll(attrs, sources[..k], world).error.Some?
    ensures ReadAll(attrs, sources, world) == ReadAll(attrs, sources[..k], world)
    decreases |sources|
  {
    if k < |sources| {
      var front := sources[..|sources| - 1];
      assert front[..k] == sources[..k];
      FailureStopsRead(attrs, front, world, k);
    } else {
      assert sources[..k] == sources;
    }
  }

  /** If source `k` is the first to fail, its error is raised and the
      target keeps the merge of sources `0..k-1`, with no rollback. */
  lemma FirstFailureWins(attrs: map<string, Node>, sources: seq<Source>, world: World, k: nat)
    requires k < |sources| && Contents(sources[k], world).Failure?
    requires forall i :: 0 <= i < k ==> Contents(sources[i], world).Success?
    ensures ReadAll(attrs, sources, world)
         == Outcome(ReadAll(attrs, sources[..k], world).attrs, Some(Contents(sources[k], world).error))
  {
    ReadAllFailsIff(attrs, sources[..k], world);
    assert forall i :: 0 <= i < k ==> sources[..k][i] == sources[i];
    assert sources[..k + 1][..k] == sources[..k];
    FailureStopsRead(attrs, sources, world, k + 1);
  }

  /** The target's prior attributes are overlaid by what the same read
      produces on an empty target. */
  lemma {:induction false} ReadAllOverlays(attrs: map<string, Node>, sources: seq<Source>, world: World)
    ensures ReadAll(attrs, sources, world).error == ReadAll(map[], sources, world).error
    ensures ReadAll(attrs, sources, world).attrs == attrs + ReadAll(map[], sources, world).attrs
    decreases |sources|
  {
    if sources != [] {
      ReadAllOverlays(attrs, sources[..|sources| - 1], world);
    } else {
      assert attrs + map[] == attrs;
    }
  }

  /** A repeated `read_configuration` re-applies every source onto the same
      target; with the world unchanged this leaves the target as the first
      read left it and raises the same error. */
  lemma RepeatedReadIsStable(attrs: map<string, Node>, sources: seq<Source>, world: World)
    ensures ReadAll(ReadAll(attrs, sources, world).attrs, sources, world) == ReadAll(attrs, sources, world)
  {
    var once := ReadAll(attrs, sources, world);
    ReadAllOverlays(attrs, sources, world);
    ReadAllOverlays(once.attrs, sources, world);
    var overlay := ReadAll(map[], sources, world).attrs;
    assert attrs + overlay + overlay == attrs + overlay;
  }

  /** When every source reads, a key takes the value of the last source
      that has it: a later source wins. */
  lemma {:induction false} LaterSourceWins(attrs: map<string, Node>, sources: seq<Source>, world: World, j: nat, key: string)
    requires forall i :: 0 <= i < |sources| ==> Contents(sources[i], world).Success?
    requires j < |sources| && key in Contents(sources[j], world).value
    requires forall i :: j < i < |sources| ==> key !in Contents(sources[i], world).value
    ensures ReadAll(attrs, sources, world).error.None?
    ensures key in ReadAll(attrs, sources, world).attrs
    ensures ReadAll(attrs, sources, world).attrs[key] == ToNode(Contents(sources[j], world).value[key])
    decreases |sources|
  {
    var front := sources[..|sources| - 1];
    assert forall i :: 0 <= i < |front| ==> front[i] == sources[i];
    ReadAllFailsIff(attrs, front, world);
    var prior := ReadAll(attrs, front, world);
    var last := Contents(sources[|sources| - 1], world).value;
    assert ReadAll(attrs, sources, world) == Outcome(Merged(prior.attrs, last), None);
    if j < |sources| - 1 {
      LaterSourceWins(attrs, front, world, j, key);
    }
  }

  /** A key that no successfully read source has keeps its prior value. */
  lemma {:induction false} UntouchedKeysKept(attrs: map<string, Node>, sources: seq<Source>, world: World, key: string)
    requires key in attrs
    requires forall i :: 0 <= i < |sources| && Contents(sources[i], world).Success? ==>
      key !in Contents(sources[i], world).value
    ensures key in ReadAll(attrs, sources, world).attrs
    ensures ReadAll(attrs, sources, world).attrs[key] == attrs[key]
    decreases |sources|
  {
    if sources != [] {
      var front := sources[..|sources| - 1];
      assert forall i :: 0 <= i < |front| ==> front[i] == sources[i];
      UntouchedKeysKept(attrs, front, world, key);
    }
  }

  /** The sources that a sequence of optional sources holds, in order:
      `add_sources` skips each `None`. */
  function Present(items: seq<Option<Source>>): (sources: seq<Source>)
    ensures |sources| <= |items|
    ensures forall s :: s in sources <==> Some(s) in items
    decreases |items|
  {
    if items == [] then []
    else
      var front := items[..|items| - 1];
      assert forall s :: Some(s) in items <==> Some(s) in front || items[|items| - 1] == Some(s);
      Present(front) + (if items[|items| - 1].Some? then [items[|items| - 1].value] else [])
  }

  /** Skipping `None`s keeps the order of the rest: the sources of a
      concatenation are the sources of each part, one after the other. */
  lemma {:induction false} PresentAppend(a: seq<Option<Source>>, b: seq<Option<Source>>)
    ensures Present(a + b) == Present(a) + Present(b)
    decreases |b|
  {
    if b == [] {
      assert a + b == a;
    } else {
      var front := b[..|b| - 1];
      assert (a + b)[..|a + b| - 1] == a + front;
      PresentAppend(a, front);
    }
  }

  // ---------------------------------------------------------------------
  // The aggregator
  // ---------------------------------------------------------------------

  class MultiConfigurationSource {
    /** `__target`: the namespace the sources are merged into. */
    const target: Namespace
    /** `__sources`: the sources, in the order they were added. */
    var sources: seq<Source>

    /** `MultiConfigurationSource(config)`: `config or Namespace()`. */
    constructor (config: Option<Namespace>)
      ensures config.Some? ==> target == config.value
      ensures config.None? ==> fresh(target) && target.attrs == map[]
      ensures sources == []
    {
      if config.Some? {
        target := config.value;
      } else {
        target := new Namespace();
      }
      sources := [];
    }

    /** `add_source(source)`: `None` is ignored, anything else goes last. */
    method AddSource(source: Option<Source>)
      modifies this
      ensures source.None? ==> sources == old(sources)
      ensures source.Some? ==> sources == old(sources) + [source.value]
    {
      if source.Some? {
        sources := sources + [source.value];
      }
    }

    /** `add_sources(sources)`: `None` is ignored; otherwise each item is
        added in iteration order through `add_source`. */
    method AddSources(items: Option<seq<Option<Source>>>)
      modifies this
      ensures items.None? ==> sources == old(sources)
      ensures items.Some? ==> sources == old(sources) + Present(items.value)
    {
      if items.Some? {
        var all := items.value;
        var i := 0;
        while i < |all|
          invariant 0 <= i <= |all|
          invariant sources == old(sources) + Present(all[..i])
        {
          AddSource(all[i]);
          assert all[..i + 1][..i] == all[..i];
          i := i + 1;
        }
        assert all[..|all|] == all;
      }
    }

    /** `read_configuration()`: merge each source's mapping into the target
        in the order the sources were added, through one merger built on
        the target; a failing `read()` propagates its error and leaves the
        target as the earlier sources made it. On success the target
        itself is returned. */
    method ReadConfiguration(world: World) returns (r: Result<Namespace, ConfigError>)
      modifies target
      ensures target.attrs == ReadAll(old(target.attrs), sources, world).attrs
      ensures ReadAll(old(target.attrs), sources, world).error.None? ==> r == Success(target)
      ensures ReadAll(old(target.attrs), sources, world).error.Some? ==>
        r == Failure(ReadAll(old(target.attrs), sources, world).error.value)
    {
      var result := target;
      var merger := new Merger(Some(result));
      var i := 0;
      while i < |sources|
        invariant 0 <= i <= |sources|
        invariant result == target
        invariant ReadAll(old(target.attrs), sources[..i], world) == Outcome(target.attrs, None)
      {
        var items := ReadSource(sources[i], world);
        assert sources[..i + 1][..i] == sources[..i];
        if items.Failure? {
          FailureStopsRead(old(target.attrs), sources, world, i + 1);
          return Failure(items.error);
        }
        result := merger.Merge(Some(items.value));
        i := i + 1;
      }
      assert sources[..|sources|] == sources;
      r := Success(result);
    }
  }

  /** An aggregator without sources returns the object it was given,
      untouched, or a fresh empty `Namespace` when it was given none. */
  method ReadWithoutSources(config: Option<Namespace>, world: World) returns (r: Result<Namespace, ConfigError>)
    modifies if config.Some? then {config.value} else {}
    ensures config.Some? ==> r == Success(config.value) && config.value.attrs == old(config.value.attrs)
    ensures config.None? ==> r.Success? && fresh(r.value) && r.value.attrs == map[]
  {
    var aggregator := new MultiConfigurationSource(config);
    r := aggregator.ReadConfiguration(world);
  }
}
