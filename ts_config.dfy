/**
  The part of `tsconfig.json` the lookup reads, after `JSON.parse`: the optional
  `compilerOptions.baseUrl` and `compilerOptions.paths`, and the defaults applied to them.
 */
module TsConfig {
  import opened Wrappers

  /** `paths`: alias pattern to the ordered list of target patterns. */
  type PathMap = map<string, seq<string>>

  datatype CompilerOptions = CompilerOptions(baseUrl: Option<string>, paths: Option<PathMap>)

  /**
    The outcome of `JSON.parse` on the file's text. `Parsed(None)` covers a document with no
    `compilerOptions` object (including the JSON value `null`).
   */
  datatype ParsedConfig = Malformed | Parsed(compilerOptions: Option<CompilerOptions>)

  /** The opened `tsconfig.json`: its text and what parsing that text yields. */
  datatype ConfigFile = ConfigFile(text: string, parsed: ParsedConfig)

  /** The arguments given to `createMatchPath`. */
  datatype MatchConfig = MatchConfig(baseUrl: string, paths: PathMap)

  /** `baseUrl || "."` and `paths || {}`. */
  function EffectiveConfig(options: Option<CompilerOptions>): (c: MatchConfig)
    ensures c.baseUrl != ""
    ensures c.baseUrl == "." || (options.Some? && options.value.baseUrl == Some(c.baseUrl))
    ensures options.Some? && options.value.baseUrl.Some? && options.value.baseUrl.value != "" ==>
      c.baseUrl == options.value.baseUrl.value
    ensures options.Some? && options.value.paths.Some? ==> c.paths == options.value.paths.value
    ensures options.None? || options.value.paths.None? ==> c.paths == map[]
  {
    match options
    case None => MatchConfig(".", map[])
    case Some(o) =>
      MatchConfig(
        if o.baseUrl.Some? && o.baseUrl.value != "" then o.baseUrl.value else ".",
        if o.paths.Some? then o.paths.value else map[])
  }
}
