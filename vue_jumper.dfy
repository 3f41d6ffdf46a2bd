/**
  The definition provider: from the document text and the selected word, find the import
  that binds the word, let the alias matcher propose files for its specifier, and report
  the accepted `.vue` file as a location at the start of that file.

  The editor, the import parser, the alias matcher and the file system are parameters:
  their results are inputs of the model, gathered in `Environment`.
 */
module VueJumper {
  import opened Wrappers
  import opened Text
  import opened ScriptBlock
  import opened Normalize
  import opened Imports
  import opened TsConfig
  import opened MatchPath

  /** Why the asynchronous lookup rejects instead of resolving. */
  datatype LookupError =
    | ImportSyntaxError   // the import parser rejects the logic block
    | ConfigUnavailable   // `tsconfig.json` cannot be opened
    | ConfigMalformed     // `JSON.parse` throws on the file's text

  /** What `findImportFromPath` settles with: `undefined`, a path (possibly ""), or a rejection. */
  datatype LookupResult = Undefined | Resolved(path: string) | Rejected(error: LookupError)

  datatype Position = Position(line: nat, character: nat)

  /** A location in a file given by its absolute path. */
  datatype Location = Location(file: string, position: Position)

  /**
    Everything the lookup obtains from outside: the workspace root, the opened
    `tsconfig.json` (None when it cannot be opened), the import parser (None when it
    rejects), the candidates the alias matcher offers the callback for a configuration and
    a specifier, and the existence test on absolute paths.
   */
  datatype Environment = Environment(
    root: string,
    tsconfig: Option<ConfigFile>,
    parseImports: string -> Option<seq<ImportRecord>>,
    matchPath: (MatchConfig, string) -> seq<string>,
    fileExists: string -> bool)

  /**
    `!scriptContent`: the logic block is missing or empty, which ends the lookup at once.
    This happens exactly when no `</script>` starts strictly after the end of a `<script>`.
   */
  predicate NoScript(doc: string)
    ensures NoScript(doc) <==>
      forall i: nat, j: nat :: OccursAt(doc, OpenTag, i) && OccursAt(doc, CloseTag, j) ==> j <= i + |OpenTag|
  {
    ScriptContent(doc).None? || ScriptContent(doc).value == ""
  }

  /** The lookup, as a function of its inputs. */
  function Lookup(doc: string, selectionWord: string, env: Environment): (r: LookupResult)
    ensures NoScript(doc) ==> r == Undefined
    ensures r.Resolved? ==> env.tsconfig.Some? && env.tsconfig.value.text != ""
    ensures r.Resolved? && r.path != "" ==>
      EndsWith(r.path, VueExtension) && env.fileExists(env.root + r.path)
  {
    if NoScript(doc) then Undefined
    else
      var word := NormalizeWord(selectionWord);
      match env.parseImports(ScriptContent(doc).value)
      case None => Rejected(ImportSyntaxError)
      case Some(imports) =>
        var target := TargetOf(imports, word);
        match env.tsconfig
        case None => Rejected(ConfigUnavailable)
        case Some(file) =>
          if target == "" || file.text == "" then Undefined
          else
            match file.parsed
            case Malformed => Rejected(ConfigMalformed)
            case Parsed(options) =>
              var candidates := env.matchPath(EffectiveConfig(options), target);
              Resolved(AcceptedPath(env.root, candidates, env.fileExists))
  }

  /**
    `findImportFromPath`: the steps of the lookup in the source's statement order, with its
    loops in `FindTarget` and `RunMatchPath`; `Lookup` is its specification.
   */
  method FindImportFromPath(doc: string, selectionWord: string, env: Environment)
    returns (r: LookupResult)
    ensures r == Lookup(doc, selectionWord, env)
  {
    var scriptContent := ScriptContent(doc);
    if scriptContent.None? || scriptContent.value == "" {
      return Undefined;
    }
    var word := NormalizeWord(selectionWord);
    var parsed := env.parseImports(scriptContent.value);
    if parsed.None? {
      return Rejected(ImportSyntaxError);
    }
    var targetImport := FindTarget(parsed.value, word);
    if env.tsconfig.None? {
      return Rejected(ConfigUnavailable);
    }
    var tsconfig := env.tsconfig.value;
    if targetImport == "" || tsconfig.text == "" {
      return Undefined;
    }
    if tsconfig.parsed.Malformed? {
      return Rejected(ConfigMalformed);
    }
    var config := EffectiveConfig(tsconfig.parsed.compilerOptions);
    var exitPath := RunMatchPath(env.root, env.matchPath(config, targetImport), env.fileExists);
    return Resolved(exitPath);
  }

  /** `provideDefinition`: zero or one location, at line 0, column 0 of the resolved file. */
  method ProvideDefinition(doc: string, selectionWord: string, env: Environment)
    returns (r: Result<seq<Location>, LookupError>)
    ensures r.Err? <==> Lookup(doc, selectionWord, env).Rejected?
    ensures r.Err? ==> r.error == Lookup(doc, selectionWord, env).error
    ensures r.Ok? ==> |r.value| <= 1
    ensures r.Ok? ==> (|r.value| == 1 <==>
      Lookup(doc, selectionWord, env).Resolved? && Lookup(doc, selectionWord, env).path != "")
    ensures r.Ok? && |r.value| == 1 ==>
      r.value[0] == Location(env.root + Lookup(doc, selectionWord, env).path, Position(0, 0))
  {
    var res := FindImportFromPath(doc, selectionWord, env);
    if res.Rejected? {
      return Err(res.error);
    }
    var allPaths: seq<Location> := [];
    if res.Resolved? && res.path != "" {
      allPaths := allPaths + [Location(env.root + res.path, Position(0, 0))];
    }
    return Ok(allPaths);
  }

  /**
    End to end: the lookup hands the last matching package import's specifier, with the
    defaulted configuration, to the matcher, and settles with the accepted candidate.
   */
  lemma LookupFollowsLastPackageImport(
    doc: string, selectionWord: string, env: Environment,
    imports: seq<ImportRecord>, i: nat, options: Option<CompilerOptions>)
    requires !NoScript(doc)
    requires env.parseImports(ScriptContent(doc).value) == Some(imports)
    requires i < |imports| && Selects(imports[i], NormalizeWord(selectionWord))
    requires forall j :: i < j < |imports| ==> !Selects(imports[j], NormalizeWord(selectionWord))
    requires SpecifierText(imports[i].specifier) != ""
    requires env.tsconfig.Some? && env.tsconfig.value.text != ""
    requires env.tsconfig.value.parsed == Parsed(options)
    ensures Lookup(doc, selectionWord, env) ==
      Resolved(AcceptedPath(env.root,
        env.matchPath(EffectiveConfig(options), SpecifierText(imports[i].specifier)),
        env.fileExists))
  {
    var word := NormalizeWord(selectionWord);
    Selection.LastWhereUnique(imports, r => Selects(r, word), Some(i));
  }

  /**
    When the lookup rejects, and with which error: the import parser failing, `tsconfig.json`
    not opening, or its text failing to parse after a target was found.
   */
  lemma LookupRejectsExactly(doc: string, selectionWord: string, env: Environment)
    ensures Lookup(doc, selectionWord, env).Rejected? <==>
      !NoScript(doc) &&
      (env.parseImports(ScriptContent(doc).value).None? || env.tsconfig.None? ||
       (TargetOf(env.parseImports(ScriptContent(doc).value).value, NormalizeWord(selectionWord)) != "" &&
        env.tsconfig.value.text != "" && env.tsconfig.value.parsed.Malformed?))
    ensures Lookup(doc, selectionWord, env) == Rejected(ImportSyntaxError) <==>
      !NoScript(doc) && env.parseImports(ScriptContent(doc).value).None?
    ensures Lookup(doc, selectionWord, env) == Rejected(ConfigUnavailable) <==>
      !NoScript(doc) && env.parseImports(ScriptContent(doc).value).Some? && env.tsconfig.None?
    ensures Lookup(doc, selectionWord, env) == Rejected(ConfigMalformed) <==>
      !NoScript(doc) && env.parseImports(ScriptContent(doc).value).Some? && env.tsconfig.Some? &&
      TargetOf(env.parseImports(ScriptContent(doc).value).value, NormalizeWord(selectionWord)) != "" &&
      env.tsconfig.value.text != "" && env.tsconfig.value.parsed.Malformed?
  {
  }

  /**
    Without `tsconfig.json` every request past the script and parser checks rejects, even one
    whose word no import binds: the config is opened before the target is tested.
   */
  lemma MissingConfigRejects(doc: string, selectionWord: string, env: Environment)
    requires !NoScript(doc)
    requires env.parseImports(ScriptContent(doc).value) == Some([])
    requires env.tsconfig.None?
    ensures Lookup(doc, selectionWord, env) == Rejected(ConfigUnavailable)
  {
  }

  /** With no matching package import, or an empty config text, the lookup gives `undefined`. */
  lemma LookupAbortsWithoutTarget(doc: string, selectionWord: string, env: Environment, imports: seq<ImportRecord>)
    requires !NoScript(doc)
    requires env.parseImports(ScriptContent(doc).value) == Some(imports)
    requires env.tsconfig.Some?
    requires (forall r :: r in imports ==> !Selects(r, NormalizeWord(selectionWord))) || env.tsconfig.value.text == ""
    ensures Lookup(doc, selectionWord, env) == Undefined
  {
  }

  /** Imports that bind the word only through relative, absolute or other non-package specifiers never resolve. */
  lemma NonPackageImportsNeverResolve(doc: string, selectionWord: string, env: Environment, imports: seq<ImportRecord>)
    requires !NoScript(doc)
    requires env.parseImports(ScriptContent(doc).value) == Some(imports)
    requires forall r :: r in imports && BindsName(r, NormalizeWord(selectionWord)) ==> r.specifier.kind != Package
    ensures !Lookup(doc, selectionWord, env).Resolved?
  {
    NonPackageMatchIgnored(imports, NormalizeWord(selectionWord));
  }

  /** Import-side names are compared as written: a name starting with a lower-case letter never matches. */
  lemma LowerCaseNamesNeverMatch(r: ImportRecord, selectionWord: string)
    requires selectionWord != ""
    requires r.clause.Some?
    requires r.clause.value.defaultName.Some? ==>
      r.clause.value.defaultName.value != "" && IsLower(r.clause.value.defaultName.value[0])
    requires forall n :: n in r.clause.value.named ==>
      n.specifier != "" && IsLower(n.specifier[0]) && n.binding != "" && IsLower(n.binding[0])
    ensures !BindsName(r, NormalizeWord(selectionWord))
  {
  }
}
