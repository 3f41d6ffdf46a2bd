# vue2-alias-file-peek: the definition lookup, in Dafny

This project models the "go to definition" provider of a VS Code extension for Vue 2
single-file components (`src/vueJumper.ts`). A definition request runs these steps:

1. The logic block is taken from the document with `/<script>([\s\S]*)<\/script>/`. This is
   the text between the first bare `<script>` tag and the last `</script>` tag after it.
   If there is no such pair, or the captured text is empty, the lookup settles with `undefined`.
2. The selected word is normalised. Every `-x`, with `x` a word character, becomes `X`. Then
   the first character is upper-cased.
3. The parsed imports are scanned in file order. An import matches when the normalised word
   equals its default name, or the exported or the local name of one of its named entries.
   The import-side names are used as written. Only a match whose specifier the parser
   classifies as `package` updates the target. The loop never breaks, so the last such import
   wins. The target is the specifier's string value, or its source text when that value is
   missing or empty.
4. `tsconfig.json` is opened. An empty target or an empty file text settles with `undefined`.
   Otherwise the file is parsed. `baseUrl` falls back to `"."` when it is missing or empty,
   and `paths` falls back to `{}`.
5. The alias matcher offers candidate paths to a callback. The callback refuses a candidate
   that does not end in `.vue` without touching the file system. It accepts one that exists
   at the workspace root concatenated with the candidate, and records it. The lookup
   settles with the last recorded candidate, or `""`.
6. `provideDefinition` returns no location, or one location at line 0, column 0 of the
   root concatenated with the result.

Modules:

- `Wrappers`: `Option` and `Result`.
- `Text`: the `\w` character class, ASCII case mapping, and forward and backward substring search.
- `Selection`: the last element of a sequence that passes a test. The import loop never breaks and overwrites its target on every matching package import. The path-match callback overwrites `exitPath` on every accepted candidate. So both results have this shape for the sequence they see.
- `ScriptBlock`: step 1.
- `Normalize`: step 2.
- `Imports`: step 3. The loop is a method proved against `TargetOf`.
- `TsConfig`: the defaults of step 4.
- `MatchPath`: step 5. The callback and the matcher's calls to it are methods proved against `AcceptedPath`.
- `VueJumper`: the lookup as a function (`Lookup`), the method `FindImportFromPath` proved equal to it, and `ProvideDefinition`.

Everything the lookup gets from outside is an input, gathered in `VueJumper.Environment`:

- the workspace root;
- the opened `tsconfig.json`, with its text and the outcome of `JSON.parse`;
- the import parser, as a function from the logic block to the import records or to a rejection;
- the alias matcher, as a function from the configuration and the target to the candidates it offers;
- the existence test on absolute paths.

The selected word is a plain string.

The source keeps the lookup inside the class `VueJumper`. Its two fields are never read, so
the model is a module of functions and methods with no object.

The lookup's outcome is `Undefined`, `Resolved(path)` or `Rejected(error)`. `path` may be
`""`. `Rejected` stands for the promise rejecting. That happens when the import parser
rejects, when `tsconfig.json` cannot be opened, or when `JSON.parse` throws. None of these
is caught in the source.

Behaviour of the code a reader may not expect:

- The last matching package import wins, not the first.
- Only the selected word is normalised; import names are compared as written. So an import
  whose names start with a lower-case letter can never be found (`LowerCaseNamesNeverMatch`).
- Relative and absolute specifiers are never resolved.
- There is no template-region gate and no check of the character before the word.
- There is no fallback configuration file.
- Without `tsconfig.json` every request past the script and parser checks rejects, even one
  whose word no import binds: the config is opened before the target is tested
  (`MissingConfigRejects`).
- There is no `/index` probing.
- There is no short-circuit for specifiers that already end in `.vue`.
- `tsconfig.json` is parsed with strict JSON, not a comment-tolerant parser.
- Normalisation is not idempotent on every string. It is idempotent on the tokens the
  registered word pattern `\w+(-\w+)*` can select (`NormalizeIdempotent`), and fails on
  `"a--b"` (`NormalizeNotIdempotentInGeneral`).

## Model

| member | source | states |
|---|---|---|
| `ScriptBlock.ScriptSpan` | src/vueJumper.ts:43 | A match exists exactly when some `<script>` is followed by a `</script>` starting at or after its end. The capture starts right after the first `<script>` in the document and ends at the last `</script>` |
| `ScriptBlock.ScriptContent` | src/vueJumper.ts:43 | Nothing is captured exactly when no `</script>` starts at or after the end of a `<script>`. A capture stands in the document as `<script>` + capture + `</script>`, with no `<script>` before it and no `</script>` after it. The capture is missing or empty exactly when no `</script>` starts strictly after the end of a `<script>` |
| `Normalize.CamelCase` | src/vueJumper.ts:50-52 | The replacement shortens the word by exactly the number of `-` followed by a word character. Which characters come out upper-cased: `SegmentStep`, `CamelCaseKebab`. Further properties: `CamelCaseNoHyphen`, `CamelCaseRemovesHyphens`, `CamelCaseDropsHyphens` |
| `Normalize.Capitalize` | src/vueJumper.ts:54 | The result never starts with a lower-case letter; a word that already does not is returned unchanged; only the first character can change |
| `Normalize.CapitalizeIdempotent` | src/vueJumper.ts:54 | Capitalising twice is capitalising once |
| `Normalize.NormalizeWord` | src/vueJumper.ts:50-54 | The normalised length is the input length minus the replaced pairs. A non-empty word stays non-empty and never starts with a lower-case letter. Further properties: `NormalizeNoHyphen`, `NormalizeHasNoHyphen`, `NormalizeIdempotent`, `NormalizeNotIdempotentInGeneral` |
| `Normalize.CamelCaseNoHyphen` | src/vueJumper.ts:50-52 | A word without `-` is unchanged by the replacement |
| `Normalize.NormalizeNoHyphen` | src/vueJumper.ts:50-54 | A word without `-` changes only in its first character, which is upper-cased |
| `Normalize.CamelCaseRemovesHyphens` | src/vueJumper.ts:50-52 | When every `-` is followed by a word character, the result contains no `-` |
| `Normalize.CamelCaseDropsHyphens` | src/vueJumper.ts:50-52 | For such words the result equals the word with its hyphens removed, up to ASCII case |
| `Normalize.SegmentStep` | src/vueJumper.ts:50-52 | A hyphen-free head, `-` and a word character: the head is kept, that character is upper-cased, and the replacement carries on with the rest of the word, whatever it holds |
| `Normalize.CamelCaseKebab` | src/vueJumper.ts:50-52 | A kebab-case word of any number of hyphen-free segments keeps its first segment and upper-cases the first character of every later one, so `el-date-picker` becomes `elDatePicker` |
| `Normalize.NormalizeKebab` | src/vueJumper.ts:50-54 | Normalising a kebab-case word capitalises every segment and joins them, so `el-date-picker` becomes `ElDatePicker` |
| `Normalize.NormalizeHasNoHyphen` | src/vueJumper.ts:50-54 | A token of the word pattern `\w+(-\w+)*` normalises to a name without `-` |
| `Normalize.NormalizeIdempotent` | src/vueJumper.ts:50-54 | Normalising a word-pattern token twice gives the same as normalising it once |
| `Normalize.NormalizeNotIdempotentInGeneral` | src/vueJumper.ts:50-54 | Outside the word pattern it is not idempotent: `a--b` gives `A-B`, which gives `AB` |
| `Normalize.NormalizeKebabExample` | src/vueJumper.ts:50-54 | `my-button` normalises to `MyButton` |
| `Normalize.NormalizePlainExample` | src/vueJumper.ts:50-54 | `icon` normalises to `Icon` |
| `Selection.LastWhere` | src/vueJumper.ts:56-70 | The found index passes the test and no later element does; no index is found only when no element passes |
| `Imports.BindsName` | src/vueJumper.ts:60-64 | An import matches exactly when its clause exists and the word is one of its names (default, exported or local), compared as written |
| `Imports.SpecifierText` | src/vueJumper.ts:67 | The value when present and non-empty, the source text otherwise; a non-empty source text always gives a non-empty target, so a matching package import is never lost to the `!targetImport` gate |
| `Imports.TargetOf` | src/vueJumper.ts:56-70 | The target is the specifier text of the selecting import with no selecting import after it, in both directions: a non-empty target is that text, and such an import gives exactly its text. An import selects when `hasSameName && type === "package"` (`Selects`). With no selecting import the target is `""`. Further properties: `LastMatchWins`, `NonPackageIgnored`, `NonPackageMatchIgnored` |
| `Imports.FindTarget` | src/vueJumper.ts:56-70 | The loop ends with the specifier text of the last import that binds the word and is a package import, or `""` |
| `Imports.LastMatchWins` | src/vueJumper.ts:57-70 | A matching package import followed only by non-selecting imports decides the target, whatever precedes it |
| `Imports.NonPackageIgnored` | src/vueJumper.ts:65-68 | Inserting a non-package import anywhere leaves the target unchanged |
| `Imports.NonPackageMatchIgnored` | src/vueJumper.ts:65-68 | If every matching import is non-package, the target is empty |
| `MatchPath.Accepts` | src/vueJumper.ts:92-101 | An accepted candidate ends in `.vue` (so it is non-empty) and exists under the root |
| `MatchPath.AcceptedPath` | src/vueJumper.ts:87-105 | A non-empty result is an offered, accepted candidate with no accepted candidate after it: the last one accepted wins. The result is `""` exactly when no offered candidate is accepted. Further property: `NonVueCandidateIgnored` |
| `MatchPath.Callback` | src/vueJumper.ts:91-102 | The file system is probed exactly for candidates ending in `.vue`; a candidate is accepted exactly when it ends in `.vue` and exists under the root |
| `MatchPath.RunMatchPath` | src/vueJumper.ts:87-105 | `exitPath` ends as the last accepted candidate, or `""` |
| `MatchPath.NonVueCandidateIgnored` | src/vueJumper.ts:92-94 | A candidate not ending in `.vue` never changes the result, wherever it is offered |
| `TsConfig.EffectiveConfig` | src/vueJumper.ts:84-85 | `baseUrl` is never empty: it is the configured value when that is non-empty, else `"."`; `paths` is the configured table, else empty |
| `VueJumper.NoScript` | src/vueJumper.ts:43-46 | The lookup stops at once exactly when no `</script>` starts strictly after the end of a `<script>` |
| `VueJumper.Lookup` | src/vueJumper.ts:37-106 | A missing or empty logic block gives `undefined`. A resolution needs a non-empty `tsconfig.json` text. A non-empty resolved path ends in `.vue` and exists under the root. When it rejects and with which error: `LookupRejectsExactly`, `MissingConfigRejects` |
| `VueJumper.FindImportFromPath` | src/vueJumper.ts:37-106 | The step-by-step lookup settles exactly as `Lookup` does |
| `VueJumper.ProvideDefinition` | src/vueJumper.ts:108-128 | The lookup's rejection is passed on. Otherwise at most one location, present exactly when the lookup resolved a non-empty path, at root + path, line 0, column 0 |
| `VueJumper.LookupFollowsLastPackageImport` | src/vueJumper.ts:55-105 | The matcher receives the last matching package import's specifier and the defaulted configuration; the lookup resolves to the candidate it accepts |
| `VueJumper.LookupAbortsWithoutTarget` | src/vueJumper.ts:79-81 | When `tsconfig.json` opens, and there is no matching package import or the config text is empty, the lookup gives `undefined` |
| `VueJumper.LookupRejectsExactly` | src/vueJumper.ts:55-83 | The lookup rejects exactly when the logic block is present and the import parser fails, `tsconfig.json` does not open, or a target was found and a non-empty config text fails to parse; each of the three errors holds exactly under its own condition |
| `VueJumper.MissingConfigRejects` | src/vueJumper.ts:72-81 | Without `tsconfig.json` a request past the script and parser checks rejects even when no import is present, because the config is opened before the target is tested |
| `VueJumper.NonPackageImportsNeverResolve` | src/vueJumper.ts:65-81 | If the word is bound only by non-package imports, the lookup never resolves |
| `VueJumper.LowerCaseNamesNeverMatch` | src/vueJumper.ts:50-64 | Import names are not normalised, so a non-empty selection never matches names that start with a lower-case letter |

## Left out

- The VS Code API is not modelled. This covers `getWordRangeAtPosition`, `getText`, `openTextDocument`, `workspaceFolders`, `Location` and `Uri`. The document text, the selected word and the workspace root are plain inputs. The file URI is the path string.
- When no word is under the cursor, `getText(undefined)` returns the whole document, and that text becomes the "word". The model takes whatever word it is given.
- A missing workspace folder makes `workspaceFolders![0]` throw. This is not modelled; the root is always given.
- `parse-imports` is a foreign parser. Its output is an input, and its rejection is `ImportSyntaxError`.
- Namespace imports (`import * as X`) are not represented, because the source never compares them.
- `createMatchPath` of `tsconfig-paths` is not visible. Its alias and wildcard expansion is an input function. That function gives the candidates offered to the callback, in order.
- Whether the matcher stops after the first accepted candidate is not modelled. If it stops, the given sequence ends there.
- The callback's return value is computed (`MatchPath.Callback`). What the matcher does with it is not modelled.
- `fs.accessSync` is an existence predicate on absolute paths. Any exception counts as "does not exist".
- `JSON.parse` is modelled by its outcome: malformed, or the optional `compilerOptions`.
- TsConfig.EffectiveConfig: `baseUrl` is modelled as a string and `paths` as a table of string lists. Non-string JSON values there (numbers, arrays, `true`) are not represented.
- Text.ToUpper: upper-casing is ASCII only. The word pattern and `\w` admit only ASCII word characters, but JavaScript's `toUpperCase` would also map a non-ASCII first character, sometimes to two characters.
- Promises, `async`/`await` and the cancellation token are not modelled. A rejection is the `Rejected` outcome.
- How VS Code treats a rejected provider promise is not modelled.
- The unused class fields `aliasConfigs` and `globalComponentsPrefixConfigs` are not modelled.
- Extension activation and registration in `src/extension.ts` are not modelled. Only its word pattern appears, as `Normalize.IsWordToken`.
