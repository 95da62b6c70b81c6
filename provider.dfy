/**
 * `ConfigurationProvider` (src/merge_conf/__init__.py:176-286): a fluent
 * builder of a `MultiConfigurationSource` that can be built once. `build()`
 * hands the aggregator out and forgets it; from then on every call raises
 * `ConfigurationProvidedError`.
 */
module Provider {
  import opened Wrappers
  import opened Base
  import opened ConfigTree
  import opened NamespaceMerger
  import opened MultiSource
  import EnvSource

  /** The sources `from_configuration_files` adds: one per file, built by
      the factory, in file order. */
  function FileSources(factory: string -> Source, files: seq<string>): (sources: seq<Source>)
    ensures |sources| == |files|
    ensures forall i :: 0 <= i < |files| ==> sources[i] == factory(files[i])
    decreases |files|
  {
    if files == [] then []
    else FileSources(factory, files[..|files| - 1]) + [factory(files[|files| - 1])]
  }

  class ConfigurationProvider {
    /** `__source`: the aggregator being built, `null` once built. */
    var source: MultiConfigurationSource?

    /** `ConfigurationProvider(existing_object)`: a fresh aggregator around
        the existing object (or a fresh namespace), with no sources. */
    constructor (existingObject: Option<Namespace>)
      ensures source != null && fresh(source) && source.sources == []
      ensures existingObject.Some? ==> source.target == existingObject.value
      ensures existingObject.None? ==> fresh(source.target) && source.target.attrs == map[]
    {
      source := new MultiConfigurationSource(existingObject);
    }

    /** `from_configuration_files(factory=..., files=...)`: after the check,
        one source per file, in file order; returns the provider itself. */
    method FromConfigurationFiles(factory: string -> Source, files: seq<string>)
      returns (r: Result<ConfigurationProvider, ProvidedError>)
      modifies source
      ensures old(source) == null ==> r == Failure(ConfigurationProvidedError)
      ensures old(source) != null ==>
        r == Success(this) && source.sources == old(source.sources) + FileSources(factory, files)
    {
      if source == null {
        return Failure(ConfigurationProvidedError);
      }
      var i := 0;
      while i < |files|
        invariant 0 <= i <= |files|
        invariant source.sources == old(source.sources) + FileSources(factory, files[..i])
      {
        source.AddSource(Some(factory(files[i])));
        assert files[..i + 1][..i] == files[..i];
        i := i + 1;
      }
      assert files[..|files|] == files;
      r := Success(this);
    }

    /** `from_os_environment(prefix, item_splitter="_", list_splitter=",")`:
        after the check, one environment source goes last. */
    method FromOsEnvironment(prefix: Option<string>, itemSplitter: string := "_", listSplitter: string := ",")
      returns (r: Result<ConfigurationProvider, ProvidedError>)
      modifies source
      ensures old(source) == null ==> r == Failure(ConfigurationProvidedError)
      ensures old(source) != null ==>
        r == Success(this) &&
        source.sources == old(source.sources)
          + [EnvironmentSource(EnvSource.NewEnvSettings(prefix, itemSplitter, listSplitter))]
    {
      if source == null {
        return Failure(ConfigurationProvidedError);
      }
      source.AddSource(Some(EnvironmentSource(EnvSource.NewEnvSettings(prefix, itemSplitter, listSplitter))));
      r := Success(this);
    }

    /** `from_command_line(arguments)`: after the check, the parsed
        arguments go last as a source. */
    method FromCommandLine(arguments: Mapping)
      returns (r: Result<ConfigurationProvider, ProvidedError>)
      modifies source
      ensures old(source) == null ==> r == Failure(ConfigurationProvidedError)
      ensures old(source) != null ==>
        r == Success(this) && source.sources == old(source.sources) + [ArgumentsSource(arguments)]
    {
      if source == null {
        return Failure(ConfigurationProvidedError);
      }
      source.AddSource(Some(ArgumentsSource(arguments)));
      r := Success(this);
    }

    /** `build()`: after the check, hands out the aggregator and forgets
        it, so that this provider can build nothing more. */
    method Build() returns (r: Result<MultiConfigurationSource, ProvidedError>)
      modifies this
      ensures old(source) == null ==> r == Failure(ConfigurationProvidedError) && source == null
      ensures old(source) != null ==> r == Success(old(source)) && source == null
    {
      if source == null {
        return Failure(ConfigurationProvidedError);
      }
      r := Success(source);
      source := null;
    }
  }

  /** A provider builds exactly once: the first `build()` returns the
      aggregator holding the object given to the constructor and the
      sources added before; the second `build()` and any later `from_*`
      call raise `ConfigurationProvidedError`. */
  method BuildOnlyOnce(config: Namespace, arguments: Mapping)
    returns (first: Result<MultiConfigurationSource, ProvidedError>,
             second: Result<MultiConfigurationSource, ProvidedError>,
             late: Result<ConfigurationProvider, ProvidedError>)
    ensures first.Success? && first.value.target == config
    ensures first.value.sources == [ArgumentsSource(arguments)]
    ensures second == Failure(ConfigurationProvidedError)
    ensures late == Failure(ConfigurationProvidedError)
  {
    var provider := new ConfigurationProvider(Some(config));
    var chained := provider.FromCommandLine(arguments);
    first := provider.Build();
    second := provider.Build();
    late := provider.FromCommandLine(arguments);
  }

  /** `ConfigurationProvider().from_os_environment(prefix).build()`: with
      the splitters omitted, the one source reads the prefixed variables
      split on `_`, with lists split on `,`, into a fresh empty namespace. */
  method EnvironmentWithDefaults(prefix: string) returns (built: Result<MultiConfigurationSource, ProvidedError>)
    ensures built.Success?
    ensures built.value.sources == [EnvironmentSource(EnvSource.EnvSettings(prefix, "_", ","))]
    ensures built.value.target.attrs == map[]
  {
    var provider := new ConfigurationProvider(None);
    var chained := provider.FromOsEnvironment(Some(prefix));
    built := provider.Build();
  }
}
