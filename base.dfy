/** The two exception types of the package (src/merge_conf/base.py). */
module Base {

  /** Why reading a source failed. */
  datatype ConfigError =
      /** `ConfigurationError(source)`: a parser could not read the named file. */
    | ConfigurationError(source: string)
      /** The `ValueError` that `str.split("")` raises: a separator is empty. */
    | EmptySeparator
      /** The `AttributeError`/`TypeError` raised when the environment path walk
          meets a string or list where it needs a dict. */
    | NotADict(name: string)

  /** `ConfigurationProvidedError`: the provider was already built. */
  datatype ProvidedError = ConfigurationProvidedError
}
