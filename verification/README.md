# intlayer VS Code extension: a Dafny model of its core logic

This project models, in Dafny, the deterministic logic of the intlayer VS Code extension that links an
Intlayer dictionary key to the places it is declared and used. It covers:

- the offset-preserving normaliser that turns `.vue`/`.svelte` text into parseable TSX;
- the resolution of dictionary content: key paths, accessor segments (`.value`, `.raw`, `.use`),
  wrapper nodes and translation nodes with their locale fallback;
- the cursor-to-origin resolution of the path resolver: the property chain under the cursor, the
  `useIntlayer('key')` definition line and the import source;
- usage analysis (`findUsages`), the unused-key decorations, the inline translation preview, the
  hover, the two definition providers and the field location of a key path in a declaration file;
- the caches (TTL config cache, mtime dictionary cache, usage caches), the per-project environment
  store, the format-command memo, the project-root walk with its memo table and `.env` loading;
- list shaping in the commands and tree views: environment discovery and options, the search query,
  the matching-first reorder with de-duplication, the picked-first quick-pick order, the
  framework-package priority, dictionary file naming and templates, the missing-translation report
  and the ANSI colour stripping of CLI messages.

Everything is pure: the VS Code host, the file system, the clock, `JSON.parse`, dotenv, ts-morph and the
CLI are parameters (oracles, given values or an abstract syntax datatype). JavaScript objects are
sequences of fields looked up by first match, numbers are integers, and `toLowerCase` is ASCII-only.

Modules follow the source files: `ExtractScript`, `ValueResolver`, `PathResolver`, `FindUsages`,
`FieldLocation`, `Decoration`, `UnusedDecoration`, `Hover`, `ContentDefinition`, `Definition`,
`KeyDeclaration` (the `key: '…'` regex shared by three providers), `IntlayerCache`, `TtlCache` (the
usage caches), `DictionaryContent`, `ProjectRoot`, `FormatCommand`, `EnvStore`, `EnvLoader`,
`SelectEnvironment`, `Explorer`, `TabExplorer`, `LogFunctions`, `Transform`, `MissingReport` and
`ContentDeclaration`. The supporting modules are `Wrappers` (Option/Result), `Text` (strings), `Lists`,
`Paths` (POSIX `path`), `Content` (JSON-like values), `Syntax` (the parser output) and `Document`
(offsets to positions).

## Where the code and its description disagree

The model follows the code in each case:

- `findUsages` records single key segments only. There is no expansion into prefixes and no stripping
  of `value`/`raw` (src/utils/findUsages.ts:193-227).
- `findFieldLocation` returns the last property it matched when a later key is missing. It does not
  report a hard miss (src/utils/findFieldLocation.ts:108-133).
- `extractScriptContent` keeps offsets but turns the newlines inside a multi-line tag into spaces, so
  line and column numbers after such a tag move (src/utils/extractScript.ts:16-19).
- `selectEnvironment`, and the root level of both tree views, use `findAllProjectRoots()` without
  awaiting it. The model states the behaviour as written and, separately, the evidently intended one
  (see Findings).

## Model

| member | source | states |
|---|---|---|
| ExtractScript.MatchLength | src/utils/extractScript.ts:16-36 | a match of a rule lies inside the text; a `{{` or `}}` match is exactly those two braces |
| ExtractScript.Replacement | src/utils/extractScript.ts:17-19 | every replacement has the length of its match and differs from it only by spaces (" {" for `{{`, "} " for `}}`, spaces otherwise) |
| ExtractScript.ReplaceFrom | src/utils/extractScript.ts:17-35 | a global replace keeps the length of the text, and every output character is the input character at the same offset or a space |
| ExtractScript.ReplaceAll | src/utils/extractScript.ts:17-35 | the same length and offset preservation for one whole `replace(…/g, …)` |
| ExtractScript.ReplaceLeftmost | src/utils/extractScript.ts:17-19 | a global replace copies the text before the leftmost match unchanged and resumes right after that match |
| ExtractScript.ReplaceStep | src/utils/extractScript.ts:17-19 | one scan step: an unmatched character is copied, and a match is replaced and skipped |
| ExtractScript.NoMatchUnchanged | src/utils/extractScript.ts:17-35 | text in which the pattern matches nowhere is returned unchanged |
| ExtractScript.MatchStartsWith | src/utils/extractScript.ts:16-36 | a tag match starts with `<`; a brace-rule match starts with a brace |
| ExtractScript.NoAngleUnchanged | src/utils/extractScript.ts:16-25 | text without `<` passes both tag rules unchanged |
| ExtractScript.NoBraceUnchanged | src/utils/extractScript.ts:28-36 | text without braces passes the Vue and Svelte rules unchanged |
| ExtractScript.ExtractScriptContent | src/utils/extractScript.ts:5-39 | the output has the input's length, each character is the input's or a space, and any extension other than ".vue"/".svelte" returns the text unchanged |
| ExtractScript.NewlinesNeverIntroduced | src/utils/extractScript.ts:13-38 | every newline of the output is a newline of the input at the same offset |
| ExtractScript.MultiLineOpenerLosesNewline | src/utils/extractScript.ts:16-19 | a `<script` opener spanning two lines becomes spaces, newline included: offsets survive, line numbers do not |
| ExtractScript.MultiLineOpenerLength | src/utils/extractScript.ts:16 | `[^>]*` crosses a newline, so the opener `<script\n>` is one match of length 9 |
| ExtractScript.OpenerMatch | src/utils/extractScript.ts:16 | `<script`, a word boundary and a later `>` make a match that runs through the first such `>` |
| ExtractScript.VueBracesRewritten | src/utils/extractScript.ts:28-30 | in a `.vue` file `{{a}}` becomes ` {a} ` |
| ExtractScript.SvelteDirectiveBlanked | src/utils/extractScript.ts:31-36 | in a `.svelte` file `{#if x}` becomes five spaces then `x}`: the directive word is blanked and the closing brace kept |
| ExtractScript.SvelteKeepsDoubleBraces | src/utils/extractScript.ts:28-36 | double braces are rewritten only in `.vue` files |
| ValueResolver.StripValueAccessor | src/providers/intlayerDecoration.ts:138-144 | exactly one trailing "value" or "raw" is removed, and the result is a prefix of the path one shorter exactly when the path ends in one |
| ValueResolver.Unwrap | src/utils/intlayerValueResolver.ts:12-28 | the loop ends at a value that cannot be unwrapped and never grows the value; a value that cannot be unwrapped is returned as is |
| ValueResolver.PickLocale | src/utils/intlayerValueResolver.ts:37-40 | the locale's entry unless it is null or undefined, then the English entry under the same condition, then the first entry; a defined falsy entry such as "" is kept |
| ValueResolver.ResolveNode | src/utils/intlayerValueResolver.ts:6-45 | a falsy node is returned unchanged, and the result is never a translation node nor a wrapper that can be unwrapped; it terminates on every finite tree |
| ValueResolver.ResolveIdempotent | src/utils/intlayerValueResolver.ts:6-45 | resolving a resolved value changes nothing |
| ValueResolver.ContentKeys | src/utils/intlayerValueResolver.ts:60-62 | the path with "use", "value" and "raw" removed holds content keys only |
| ValueResolver.WalkSkippingIsFilteredWalk | src/utils/intlayerValueResolver.ts:58-69 | walking while skipping accessor segments equals walking the path with those segments removed |
| ValueResolver.GetValueFromPath | src/utils/intlayerValueResolver.ts:51-72 | null exactly when the walk along the content keys of the path leaves the content; otherwise the resolved value it reaches |
| ValueResolver.ValueIsFilteredLookup | src/utils/intlayerValueResolver.ts:56-71 | the result depends only on the content keys of the path; an effective path that is empty resolves the content itself |
| ValueResolver.AccessorHasNoKeys | src/utils/intlayerValueResolver.ts:60-62 | inserting an accessor segment anywhere leaves the content keys unchanged |
| ValueResolver.AccessorsIgnored | src/utils/intlayerValueResolver.ts:58-62 | inserting "use", "value" or "raw" anywhere in a path leaves the looked-up value unchanged |
| ValueResolver.WrapperStepsIn | src/utils/intlayerValueResolver.ts:19-22 | a wrapper steps into its own-named field when that field is defined |
| ValueResolver.WrapperFallsBackToContent | src/utils/intlayerValueResolver.ts:19-24 | a wrapper without its own-named field, but with a defined `content`, steps into `content` |
| ValueResolver.TranslationPicksLocale | src/utils/intlayerValueResolver.ts:31-41 | a translation node with a truthy `translation` resolves to what its picked entry resolves to |
| ValueResolver.WrappedTranslationResolves | src/utils/intlayerValueResolver.ts:6-45 | a wrapper of any wrapper type around a translation resolves to the locale's string |
| PathResolver.ChainStart | src/utils/intlayerPathResolver.ts:127 | the leftmost start from which the rest of the text is a property chain; no earlier start is one |
| PathResolver.PropertyChain | src/utils/intlayerPathResolver.ts:125-129 | the segments joined by "." are the longest chain-shaped suffix of `text[0..endChar)`; every segment is a non-empty run of `[A-Za-z0-9_$]`; the result is [] exactly when no suffix is a chain |
| PathResolver.SplitChain | src/utils/intlayerPathResolver.ts:128 | a chain splits at "." into non-empty segments |
| PathResolver.DeclarationKeyword | src/utils/intlayerPathResolver.ts:140 | `(?:const\|let\|var)\s+` ends after the position where it starts |
| PathResolver.Binder | src/utils/intlayerPathResolver.ts:140 | the binder captures either a destructuring list or a direct variable, never both |
| PathResolver.AnnotationThenEquals | src/utils/intlayerPathResolver.ts:140 | the optional type annotation is followed by an `=` at the returned index |
| PathResolver.AccessorCall | src/utils/intlayerPathResolver.ts:140 | the call is `useIntlayer` or `getIntlayer` with a non-empty quoted key that holds no quote |
| PathResolver.DefinitionMatchAt | src/utils/intlayerPathResolver.ts:139-147 | a match gives the function name, a non-empty quote-free key, and exactly one of the two binder captures |
| PathResolver.FindDefinitionMatch | src/utils/intlayerPathResolver.ts:142-145 | `regex.exec(line)`: the match at the leftmost position where the pattern matches, or none when it matches nowhere |
| PathResolver.EffectiveName | src/utils/intlayerPathResolver.ts:157-158 | an entry binds its alias, or its original name when it has no alias |
| PathResolver.BoundNames | src/utils/intlayerPathResolver.ts:154-158 | the names a destructuring list binds, one per comma-separated entry |
| PathResolver.DefinitionFromMatch | src/utils/intlayerPathResolver.ts:147-170 | a found definition carries the match's key and function name and a path of at most one segment; the path is empty only for a direct binding, and a direct binding of the target always gives the empty path |
| PathResolver.DestructuredBinding | src/utils/intlayerPathResolver.ts:153-167 | for a destructuring, the first entry that binds the target gives the path `[original]` |
| PathResolver.DestructuredMiss | src/utils/intlayerPathResolver.ts:153-170 | a destructuring in which no entry binds the target gives null |
| PathResolver.ParseDefinitionLine | src/utils/intlayerPathResolver.ts:131-171 | a line where the pattern matches nowhere gives null; otherwise exactly what the leftmost match gives for the target, with a path of at most one segment |
| PathResolver.AliasedEntry | src/utils/intlayerPathResolver.ts:154-158 | the entry ` original: alias ` is a single entry that reads field `original` and binds `alias` |
| PathResolver.AliasReadsOriginal | src/utils/intlayerPathResolver.ts:153-167 | in `{ original: alias }` the alias is the name that matches and the path is `[original]`; the original name itself does not match |
| PathResolver.LocalSearch | src/utils/intlayerPathResolver.ts:83-91 | the search gives what the first line that mentions an accessor and parses yields, and nothing when no line does |
| PathResolver.FirstCandidateNone | src/utils/intlayerPathResolver.ts:83-91 | the search finds nothing exactly when no line mentions an accessor and parses for the name |
| PathResolver.FirstCandidateSome | src/utils/intlayerPathResolver.ts:83-91 | the search gives what the first such line gives |
| PathResolver.FindLocalDefinition | src/utils/intlayerPathResolver.ts:76-92 | the first line of the document, split at "\n", that mentions `useIntlayer`/`getIntlayer` and parses for the name |
| PathResolver.FromClause | src/utils/intlayerPathResolver.ts:69 | `\s+from\s+['"]([^'"]+)['"]` captures a non-empty module name without quotes |
| PathResolver.ImportAt | src/utils/intlayerPathResolver.ts:69 | an import match starts with the word `import` |
| PathResolver.FindImportSource | src/utils/intlayerPathResolver.ts:61-74 | the source of the leftmost import match, and null when the pattern matches nowhere |
| PathResolver.FromClauseOf | src/utils/intlayerPathResolver.ts:69 | a `from '<m>'` clause reads the module `m` |
| PathResolver.DefaultImportWins | src/utils/intlayerPathResolver.ts:68-73 | a default import `import w from 'm'` matches whatever the function's name is, so its module is the source |
| PathResolver.DefaultImportAt | src/utils/intlayerPathResolver.ts:69-73 | a default import at the start of the text gives the source of its `from` clause |
| PathResolver.DefaultImportShape | src/utils/intlayerPathResolver.ts:69 | `import <w> from '<m>'` starts with the word `import`, has the word in its binder position and a `from` clause reading `m` |
| PathResolver.RootDefinition | src/utils/intlayerPathResolver.ts:32-39 | the first line of the document that yields a definition decides; only when no line does is the definition provider's line parsed, and without that line there is no definition |
| PathResolver.ResolveIntlayerPath | src/utils/intlayerPathResolver.ts:15-57 | no chain under the cursor gives null; a definition in the document decides; otherwise an origin exists exactly when the provider's line parses; the field path ends with the chain after its root, behind at most one segment of the definition |
| PathResolver.LocalDefinitionWins | src/utils/intlayerPathResolver.ts:32-39 | when the document itself defines the chain's root, the definition provider's answer does not change the result |
| FindUsages.AddLocation | src/utils/findUsages.ts:150-163 | the key joins the used keys, its ranges gain the new range at the end, every other key's ranges are unchanged, and located keys stay used keys |
| FindUsages.ElementKeys | src/utils/findUsages.ts:178-183 | the keys of a destructuring are exactly the fields its elements read: the property name, else the name |
| FindUsages.RecordElements | src/utils/findUsages.ts:177-187 | recording the elements adds exactly their keys and keeps every located key a used key |
| FindUsages.RecordElementsRanges | src/utils/findUsages.ts:184-185 | each key's ranges gain the locations of the elements that read it, in element order: at the property-name node when there is one, else at the name node |
| FindUsages.RecordReferences | src/utils/findUsages.ts:193-227 | every key added is read by a reference as `v.x` or `v['x']`, or is `__ALL__` from an opaque reference; every such key is added, and `__ALL__` is added when a reference is opaque |
| FindUsages.AnalyzeCall | src/utils/findUsages.ts:136-230 | a call outside a variable declaration uses only `__EXISTENCE_CHECK__` and has no locations; a destructuring uses exactly its elements' fields; a variable uses exactly the keys its references read, plus `__ALL__` exactly when some reference is opaque; the range is the call's |
| FindUsages.AnalyzeFile | src/utils/findUsages.ts:97-234 | there is a usage only for calls with an identifier callee `useIntlayer`/`getIntlayer` and a literal first argument equal to the key; none exactly when no call qualifies; the first usage is the first qualifying call's; located keys are used keys |
| FindUsages.AnalyzeFromEmpty | src/utils/findUsages.ts:106-134 | the scan from a call on is empty exactly when no later call is a target call |
| FindUsages.AnalyzeFromHead | src/utils/findUsages.ts:106-134 | a non-empty scan starts with the usage of the first target call |
| FindUsages.AnalyzeFromFirst | src/utils/findUsages.ts:106-134 | both facts together: emptiness exactly when no target call, and the head is the first target call's usage |
| FindUsages.MergeOne | src/utils/findUsages.ts:81-91 | one step adds the usage's keys and appends its ranges to each key's list |
| FindUsages.MergeUsageData | src/utils/findUsages.ts:75-95 | the merged keys are the union of the usages' keys, and each key's ranges are the concatenation of its ranges in input order |
| FindUsages.MergeFromPartial | src/utils/findUsages.ts:81-92 | the loop from a partial result gives that result's keys plus the union, and its ranges followed by the concatenation |
| FindUsages.MergeConsistent | src/utils/findUsages.ts:81-92 | merging usages whose located keys are used keys gives a result with the same property |
| FindUsages.FileUsage | src/utils/findUsages.ts:41-69 | a file contributes exactly when it can be read, its text contains the key and it has a target call; the contribution carries the file and the range of the first target call |
| FindUsages.FindUsagesOfDictionary | src/utils/findUsages.ts:21-73 | the result holds exactly the files' contributions, at most one per file |
| FindUsages.ChainRecordsFirstSegment | src/utils/findUsages.ts:200-207 | `content.a.b` records only "a": there is no deeper chain and no prefix expansion |
| FieldLocation.JsonKeyEnd | src/utils/findFieldLocation.ts:149 | a match of `(["'])key\1\s*:` at `i` is a quote, the key, the same quote, white space and a colon; when only the colon is missing there is no match |
| FieldLocation.FindJsonKey | src/utils/findFieldLocation.ts:149-151 | `exec` from `lastIndex`: the leftmost match at or after the start, and none when there is none |
| FieldLocation.JsonMatches | src/utils/findFieldLocation.ts:148-156 | the keys are matched in order, each search starting where the previous match ended |
| FieldLocation.ChainAt | src/utils/findFieldLocation.ts:150-155 | each match of the loop is the leftmost one from where its search starts |
| FieldLocation.LocationInJson | src/utils/findFieldLocation.ts:140-163 | an empty path gives line 0, character 0; otherwise a position exactly when every key matches in order, namely the position of the last match's start |
| FieldLocation.LinePositionIsPositionAt | src/utils/findFieldLocation.ts:157-160 | the number of "\n" before the offset and the characters since the last one are the line and character of that offset |
| FieldLocation.JsonPrefixFound | src/utils/findFieldLocation.ts:148-161 | if a path is found, every shorter prefix of it is found at the same matches |
| FieldLocation.JsonKeysInOrder | src/utils/findFieldLocation.ts:150-155 | the matches of a found path lie in order, each after the colon of the one before |
| FieldLocation.RootObject | src/utils/findFieldLocation.ts:30-81 | a root object exists only with a default export |
| FieldLocation.RootForEveryExportStyle | src/utils/findFieldLocation.ts:37-76 | `export default {…}`, `export default {…} satisfies T`, and an exported variable initialised with `{…}` or `{…} satisfies T` all lead to that object |
| FieldLocation.Unwrap | src/utils/findFieldLocation.ts:91-106 | an object literal is itself; a call whose first argument is an object literal is unwrapped to it; nothing else is |
| FieldLocation.Descend | src/utils/findFieldLocation.ts:84-118 | the loop finds no key exactly when the path is empty or its first key is missing |
| FieldLocation.DescendFindsDeepest | src/utils/findFieldLocation.ts:87-131 | the loop reports a property exactly when some prefix of the path leads to that property assignment and the path ends there or its next key is missing |
| FieldLocation.DeepestFirst | src/utils/findFieldLocation.ts:108-118 | the first key alone is the deepest exactly when the walk below it finds no key |
| FieldLocation.DeepestShift | src/utils/findFieldLocation.ts:108-117 | below the first key, the deepest key is the deepest of the rest of the path under the first key's value |
| FieldLocation.WholePathLocated | src/utils/findFieldLocation.ts:87-131 | a whole declared path ending in a property assignment is located at that assignment's name |
| FieldLocation.FindFieldLocation | src/utils/findFieldLocation.ts:12-138 | an unreadable file gives null; ".json", ".json5" and ".jsonc" files use the text scan; other files give the name position of the deepest assignment reached from the root object, null without a root or a first key, and null for an empty path |
| Decoration.DropSpaces | src/providers/intlayerDecoration.ts:231 | the leading white space `trim` removes: the result is a suffix that starts with a non-space, and everything before it is white space |
| Decoration.CollapseSpaces | src/providers/intlayerDecoration.ts:231 | `replace(/\s+/g, " ")` never lengthens the text, keeps whether it starts with white space, and a leading run becomes one space |
| Decoration.Words | src/providers/intlayerDecoration.ts:231 | the words of a text, each a non-empty run without white space |
| Decoration.CollapseIsWords | src/providers/intlayerDecoration.ts:231 | `replace(/\s+/g, " ")` gives the words joined by single spaces, with one space in front when the text starts with white space and one behind when white space follows the last word |
| Decoration.CleanedIsWords | src/providers/intlayerDecoration.ts:231 | replacing and then trimming gives exactly the words joined by single spaces |
| Decoration.TrimExact | src/providers/intlayerDecoration.ts:231 | `trim` removes exactly the white space around a text that is not padded itself |
| Decoration.JoinedWordsUnpadded | src/providers/intlayerDecoration.ts:231 | words joined by spaces neither start nor end with white space |
| Decoration.CollapseSingleSpaced | src/providers/intlayerDecoration.ts:231 | after the replacement the only white space left is single spaces, never two in a row |
| Decoration.CollapseKeepsText | src/providers/intlayerDecoration.ts:231 | the replacement keeps every non-white-space character, in order |
| Decoration.NonSpacesOfSpaces | src/providers/intlayerDecoration.ts:231 | dropping a run of white space leaves the non-white-space characters unchanged |
| Decoration.SingleSpacedSlice | src/providers/intlayerDecoration.ts:231-235 | any slice of a single-spaced text is single-spaced |
| Decoration.TrimSingleSpaced | src/providers/intlayerDecoration.ts:231 | `trim` keeps a text single-spaced |
| Decoration.TrimKeepsText | src/providers/intlayerDecoration.ts:231 | `trim` removes white space only |
| Decoration.Cleaned | src/providers/intlayerDecoration.ts:231 | the cleaned text is exactly the words of the original joined by single spaces: single-spaced, no white space at either end, the same non-white-space characters |
| Decoration.EllipsisSingleSpaced | src/providers/intlayerDecoration.ts:234-235 | appending "..." keeps a text single-spaced |
| Decoration.DisplayText | src/providers/intlayerDecoration.ts:226-237 | a cleaned text of at most 60 characters is shown whole, a longer one as its first 60 characters and "..."; at most 63 characters, single-spaced |
| Decoration.ElementText | src/providers/intlayerDecoration.ts:257-275 | a falsy node and a boolean give "" |
| Decoration.RawText | src/providers/intlayerDecoration.ts:202-229 | null and undefined give nothing; a string is itself; an object that is not element-like gives nothing; a boolean gives "" |
| Decoration.ParseContentValue | src/providers/intlayerDecoration.ts:202-238 | null, undefined, booleans and plain objects show nothing; a non-empty string shows its display text, an empty one nothing; any shown text is single-spaced and at most 63 characters |
| Decoration.LookupValue | src/providers/intlayerDecoration.ts:370-398 | a path that leaves the content, or reaches a falsy value, gives null; a translation node shows the locale's entry when it is truthy and its first entry otherwise; any other value is shown as it is |
| Decoration.PreviewFallbackDiffers | src/providers/intlayerDecoration.ts:394 | for a translation whose entry for the locale is "", the preview falls back to the first entry while the shared resolver keeps "" |
| Decoration.AnalyzeCall | src/providers/intlayerDecoration.ts:279-332 | only `useIntlayer`/`getIntlayer` calls with arguments count; the key is the literal first argument's text and exists exactly then; a plain variable gets the empty path; each destructured element gets its property name, or its own name, as path |
| Decoration.Texts | src/providers/intlayerDecoration.ts:357 | the text of each token, in order |
| Decoration.ResolvePropertyAccess | src/providers/intlayerDecoration.ts:349-368 | a reference used as the object of a member chain collects every property name of the chain; otherwise no names and the reference's own end |
| Decoration.IsDeclarationIdentifier | src/providers/intlayerDecoration.ts:334-347 | a declaring occurrence is never the object of a property or element access; an occurrence under a member access, an element access or any other parent is not declaring |
| Decoration.ContentPath | src/providers/intlayerDecoration.ts:138-144 | the path read starts with the variable's own path |
| Decoration.ReferencePreview | src/providers/intlayerDecoration.ts:132-186 | a reference gives a preview exactly when the value at the variable's path plus its member chain, without a trailing `value`/`raw`, is truthy and shows non-empty text; the preview is that text after four spaces, on the line where the chain ends |
| Decoration.VariablePreviews | src/providers/intlayerDecoration.ts:123-187 | a preview is listed exactly when some non-declaring occurrence of the variable's name gives it |
| Decoration.DeclarationsGiveNoPreview | src/providers/intlayerDecoration.ts:128-130 | a variable whose every occurrence declares or initialises a binding gets no preview, even `title` in `const copy = title` |
| Decoration.CallPreviews | src/providers/intlayerDecoration.ts:102-188 | a call without a literal key, without bound variables or without a stored dictionary gives nothing; otherwise exactly the previews of its variables read from the first dictionary's content |
| Decoration.Candidates | src/providers/intlayerDecoration.ts:102-189 | the candidate previews are exactly those of the file's calls, all indented |
| Decoration.OnePerLine | src/providers/intlayerDecoration.ts:166-169 | the kept previews are among the candidates, on lines not yet decorated, and no two on one line |
| Decoration.OnePerLineCovers | src/providers/intlayerDecoration.ts:166-185 | every line some candidate targets, and no earlier one did, gets a preview |
| Decoration.OnePerLineExact | src/providers/intlayerDecoration.ts:166-185 | keeping one preview per line keeps exactly the first candidate of each line |
| Decoration.UpdateDecorations | src/providers/intlayerDecoration.ts:70-192 | the decorations are exactly the first candidate preview of each line: no two on one line, every one indented, and every line some candidate targets gets its first one |
| Decoration.CallPreviewsIndented | src/providers/intlayerDecoration.ts:102-189 | every preview of one call is indented |
| UnusedDecoration.StripQuotes | src/providers/intlayerUnusedDecoration.ts:97 | `replace(/['"]/g, "")` leaves no quote character and leaves a name without quotes unchanged |
| UnusedDecoration.FullKey | src/providers/intlayerUnusedDecoration.ts:98 | below a non-empty prefix the key is the prefix, a dot and the name; without a prefix it is the name |
| UnusedDecoration.KeysFrom | src/providers/intlayerUnusedDecoration.ts:89-124 | every property assignment contributes its key, the prefix, a dot and its unquoted name, or the name alone at the top; every key collected below a non-empty prefix is nested under that prefix |
| UnusedDecoration.PropKeys | src/providers/intlayerUnusedDecoration.ts:95-120 | exactly a property assignment contributes keys; its own key comes first; an object-literal initialiser then contributes all the keys of that object, collected under its own key; any other initialiser, a `t(…)` call included, contributes only its own key |
| UnusedDecoration.UnderTransitive | src/providers/intlayerUnusedDecoration.ts:98-116 | a key nested under a key nested under a prefix is nested under that prefix |
| UnusedDecoration.UnderNested | src/providers/intlayerUnusedDecoration.ts:114-116 | the keys of a nested group stay under the outer prefix |
| UnusedDecoration.KeysPrefixClosed | src/providers/intlayerUnusedDecoration.ts:112-116 | every collected key is a direct property of the object or comes after a key it is nested under (the group is pushed before its members) |
| UnusedDecoration.HeadParentsFirst | src/providers/intlayerUnusedDecoration.ts:112-116 | the keys of the first property satisfy parents-first |
| UnusedDecoration.TailParentsFirst | src/providers/intlayerUnusedDecoration.ts:94-122 | the keys of the later properties keep satisfying parents-first after the first property's keys |
| UnusedDecoration.KeysFromAppend | src/providers/intlayerUnusedDecoration.ts:94-123 | the keys come out in property order: the keys of two runs of properties are the keys of each, concatenated |
| UnusedDecoration.KeysFromAssignmentsOnly | src/providers/intlayerUnusedDecoration.ts:95 | properties other than assignments (spreads, shorthands, methods) contribute nothing |
| UnusedDecoration.PropBlock | src/providers/intlayerUnusedDecoration.ts:94-123 | the keys of each property are one contiguous block, between those of the properties before and after it |
| UnusedDecoration.NestedKeyCollected | src/providers/intlayerUnusedDecoration.ts:111-116 | a field of a nested object literal is collected, keyed by the outer key, a dot and its name: the collection recurses into every group |
| UnusedDecoration.UsedKeys | src/providers/intlayerUnusedDecoration.ts:165-174 | a key is used exactly when some usage reads it |
| UnusedDecoration.FieldFlags | src/providers/intlayerUnusedDecoration.ts:221-237 | a field is struck exactly when neither its key nor `__ALL__` is used, with the hover "Property '…' is unused" |
| UnusedDecoration.KeyFlag | src/providers/intlayerUnusedDecoration.ts:192-203 | at most one strike for the dictionary key |
| UnusedDecoration.KeyFlagAtStart | src/providers/intlayerUnusedDecoration.ts:193-201 | `indexOf` finds the leftmost match again, so the strike covers the matched `key: '…'` text with the hover "This dictionary is never used in the project" |
| UnusedDecoration.Labels | src/providers/intlayerUnusedDecoration.ts:180-189 | one " (unused)" label per strike, at the end of the strike's first line |
| UnusedDecoration.Decide | src/providers/intlayerUnusedDecoration.ts:164-241 | no usages: only the dictionary key is struck; some usages: exactly the unused fields are struck; every strike has its label |
| UnusedDecoration.DictionaryObject | src/providers/intlayerUnusedDecoration.ts:210-212 | the first object literal in document order with both `key` and `content` members, and none when no object has both |
| UnusedDecoration.ContentFields | src/providers/intlayerUnusedDecoration.ts:210-219 | when the first object with `key` and `content` assigns `content` an object literal, the fields are exactly the keys collected from that literal; otherwise there are none |
| UnusedDecoration.Update | src/providers/intlayerUnusedDecoration.ts:126-162 | nothing happens without "key:" and "content:" in the text, a project root or a key match; a fresh cache entry for `projectDir:key` decides with its usages and leaves the cache alone; otherwise decorations exist exactly when the scan succeeds, are decided with the scanned usages, and the entry is replaced by them, stamped with the time of the scan; no other entry changes |
| UnusedDecoration.CachedUsagesDecide | src/providers/intlayerUnusedDecoration.ts:146-153 | within five seconds of a scan the cached usages decide and the cache is left unchanged |
| UnusedDecoration.UnusedDictionaryStrikesOnlyKey | src/providers/intlayerUnusedDecoration.ts:192-225 | without usages exactly one strike is set, with the never-used hover, whatever the fields |
| UnusedDecoration.ExistenceCheckSuppressesNothing | src/providers/intlayerUnusedDecoration.ts:228 | a usage that only checks the dictionary exists marks no field used |
| Hover.Found | src/providers/intlayerHoverProvider.ts:150-160 | a value is found exactly when the walk along the path succeeds and reaches a truthy value, and then it is that value |
| Hover.NodeType | src/providers/intlayerHoverProvider.ts:58-80 | `IntlayerNode` is shown exactly for a translation read without an accessor outside the `intlayer` package; with the `intlayer` package or an accessor a translation shows the `typeof` of its first value, or `unknown` when it has none; any other object shows `Object`, and anything else its `typeof` |
| Hover.AccessorLikeCorePackage | src/providers/intlayerHoverProvider.ts:70-76 | reading `.value`/`.raw` through a framework package shows the type the core `intlayer` package shows without an accessor |
| Hover.DisplayType | src/providers/intlayerHoverProvider.ts:48-86 | the type is `unknown` or the type of the value found in some local entry |
| Hover.FirstTypedDecides | src/providers/intlayerHoverProvider.ts:48-86 | the first local entry with a found value decides the type, whatever the entries after it hold |
| Hover.NoTypedIsUnknown | src/providers/intlayerHoverProvider.ts:49 | without such an entry the type is `unknown` |
| Hover.PathLabel | src/providers/intlayerHoverProvider.ts:93 | the path joined with ".", or `root` when that is empty; never empty |
| Hover.Entries | src/providers/intlayerHoverProvider.ts:134 | `Object.entries`: the fields of an object in order, and the indices and items of an array |
| Hover.SectionOf | src/providers/intlayerHoverProvider.ts:99-143 | a remote entry gets the dashboard link section and only it does |
| Hover.SectionsOfShownEntries | src/providers/intlayerHoverProvider.ts:98-144 | one section per remote entry or entry with a found value, in entry order, and none for the others |
| Hover.ProvideHover | src/providers/intlayerHoverProvider.ts:8-147 | a hover exists exactly when the path resolves, a project root is found and its dictionary file loads; its header names the key, the path without a trailing accessor and the type, and its sections are those of the shown entries |
| Hover.FalsyLeafNotFound | src/providers/intlayerHoverProvider.ts:58 | a value of 0, "" or false at the path decides no type and gets no section |
| Hover.RemoteEntriesOnlyLink | src/providers/intlayerHoverProvider.ts:100-108 | a remote entry never decides the type and gets exactly the link to `cmsURL/dictionary/key` |
| Hover.AccessorShowsPrimitive | src/providers/intlayerHoverProvider.ts:64-77 | reading `.value`/`.raw` of a translation shows the type of its first value; without an accessor and outside the `intlayer` package it shows `IntlayerNode` |
| ContentDefinition.StripWordQuotes | src/providers/intlayerContentDefinitionProvider.ts:105 | at most one leading and one trailing quote are removed; a word quoted at both ends loses exactly those two; an unquoted word is unchanged |
| ContentDefinition.QuotedWord | src/providers/intlayerContentDefinitionProvider.ts:103-105 | a word between quotes of either kind is the text inside |
| ContentDefinition.TargetOf | src/providers/intlayerContentDefinitionProvider.ts:84-119 | a target exists exactly when the text has a key match and the cursor is on a word; the clicked field is "key" exactly when the unquoted word is "key" or the dictionary key, and the word otherwise |
| ContentDefinition.UsageTargets | src/providers/intlayerContentDefinitionProvider.ts:56-78 | clicking the key offers the usage's call; a field with recorded ranges offers each of them; otherwise only a usage reading `__ALL__` offers its call |
| ContentDefinition.Targets | src/providers/intlayerContentDefinitionProvider.ts:54-78 | the locations offered are exactly those of the single usages |
| ContentDefinition.KeyTargetsOnePerUsage | src/providers/intlayerContentDefinitionProvider.ts:57-61 | clicking the key offers one location per usage, at its call, in usage order |
| ContentDefinition.ProvideDefinition | src/providers/intlayerContentDefinitionProvider.ts:21-81 | null without a project root or a target; a cache entry for `projectDir:key` younger than five minutes gives the answer and leaves the cache alone; otherwise the scan gives it and is stored stamped with the current time, and a failed scan is an error that leaves the cache alone; the answer is null exactly when no usage offers a location, else those locations |
| ContentDefinition.Answer | src/providers/intlayerContentDefinitionProvider.ts:50-80 | null exactly when the usages offer no location, else the locations in usage order |
| ContentDefinition.CachedTargetsDecide | src/providers/intlayerContentDefinitionProvider.ts:40-44 | within five minutes of a scan the cached usages decide, whatever the project holds now, and the cache is unchanged |
| ContentDefinition.RepeatWithinTtlAgrees | src/providers/intlayerContentDefinitionProvider.ts:38-48 | a repeat request within five minutes of a successful scan gets the first answer and leaves the cache as the first left it |
| ContentDefinition.UnreadFieldHasNoTargets | src/providers/intlayerContentDefinitionProvider.ts:66-77 | a field no usage reads, without whole-content reads, offers no location |
| Definition.AstPath | src/providers/intlayerDefinitionProvider.ts:32-81 | the searched path is `content` followed by the field path without a trailing accessor |
| Definition.Caret | src/providers/intlayerDefinitionProvider.ts:85-90 | a zero-width range at the position |
| Definition.TargetOf | src/providers/intlayerDefinitionProvider.ts:73-97 | the target is the source file joined to the project directory, at the field's location, or at 0:0 when it is not found |
| Definition.Targets | src/providers/intlayerDefinitionProvider.ts:68-98 | no more targets than entries, and each the target of an entry backed by a source file on disk |
| Definition.TargetsOfLocalEntries | src/providers/intlayerDefinitionProvider.ts:68-98 | one target per local entry with a file path still on disk, in entry order |
| Definition.ProvideDefinition | src/providers/intlayerDefinitionProvider.ts:17-101 | a non-null answer needs a resolved path, a project root and a readable, parseable dictionary file, is non-empty and is the targets of its entries; it is non-null whenever those exist and the targets are non-empty |
| Definition.NoLocalSourceNoDefinition | src/providers/intlayerDefinitionProvider.ts:69-76 | without an entry backed by a source file on disk there is no target |
| Definition.AccessorDoesNotMoveTarget | src/providers/intlayerDefinitionProvider.ts:32-36 | going to `x.title.value` or `x.title.raw` searches the declaration of `x.title` |
| KeyDeclaration.ClosingQuote | src/providers/intlayerUnusedDecoration.ts:140 | the lazy `(.*?)\1`: the first matching quote after the opening one, with no line terminator before it |
| KeyDeclaration.ColonAt | src/providers/intlayerUnusedDecoration.ts:140 | `key\s*:` at an index ends at a colon at least three characters further on |
| KeyDeclaration.QuoteAfter | src/providers/intlayerUnusedDecoration.ts:140 | `\s*(["'])` after the colon ends at a quote character |
| KeyDeclaration.KeyMatchAt | src/providers/intlayerUnusedDecoration.ts:140 | a match at an index starts there, is at least six characters long, lies within the text, and its key has no line terminator |
| KeyDeclaration.FindKeyMatch | src/providers/intlayerUnusedDecoration.ts:140-143 | `exec`: the leftmost match, with no match at any earlier index, and none when no index matches |
| KeyDeclaration.SameWindowAt | src/providers/intlayerUnusedDecoration.ts:140 | equal windows agree character by character |
| KeyDeclaration.SliceShift | src/providers/intlayerUnusedDecoration.ts:140 | equal windows agree on every slice inside them |
| KeyDeclaration.ColonShift | src/providers/intlayerUnusedDecoration.ts:140 | the `key\s*:` stage is found again at the same offset in an equal window |
| KeyDeclaration.QuoteShift | src/providers/intlayerUnusedDecoration.ts:140 | the opening quote stage is found again at the same offset in an equal window |
| KeyDeclaration.ClosingShift | src/providers/intlayerUnusedDecoration.ts:140 | the closing quote is found again at the same offset in an equal window |
| KeyDeclaration.MatchParts | src/providers/intlayerUnusedDecoration.ts:140 | a match splits into its colon, its opening quote and its closing quote, and its key is the text between the quotes |
| KeyDeclaration.KeyMatchFrom | src/providers/intlayerUnusedDecoration.ts:140 | the three stages found in order make a match whose key is the text between the quotes |
| KeyDeclaration.WindowMatch | src/providers/intlayerUnusedDecoration.ts:140 | a match found again in an equal window of any text is the same match there |
| KeyDeclaration.StagesShift | src/providers/intlayerUnusedDecoration.ts:140 | the three stages of a match all move with the window |
| KeyDeclaration.MatchIsLocal | src/providers/intlayerUnusedDecoration.ts:193 | the matched text found anywhere in the text matches there with the same key and length |
| KeyDeclaration.ClosingQuoteAt | src/providers/intlayerUnusedDecoration.ts:140 | the first quote of the right kind, with no line terminator before it, is the closing quote |
| KeyDeclaration.IndexOfMatchIsStart | src/providers/intlayerUnusedDecoration.ts:193-194 | `text.indexOf(keyMatch[0])` is where the match starts: an earlier copy would be an earlier match |
| IntlayerCache.CachedConfig | src/utils/intlayerCache.ts:10-35 | the cached configuration of the same project younger than two seconds is returned unchanged; otherwise it is loaded, and a successful load replaces the slot with the time of the check; a failed load leaves the slot |
| IntlayerCache.OtherProjectEvicts | src/utils/intlayerCache.ts:20-32 | a single slot: loading another project's configuration makes the first project load again |
| IntlayerCache.CachedDictionary | src/utils/intlayerCache.ts:41-70 | a missing file or unreadable stat gives null and keeps the cache; an unchanged modification time answers from the cache; a new path or a changed modification time reads the file again, returns what it parses to and stores it under its path with the new time, and a failed read keeps the cache; no other path's entry changes |
| IntlayerCache.SameMtimeHits | src/utils/intlayerCache.ts:48-53 | once read, a file is answered from the cache while its modification time stays the same |
| IntlayerCache.ChangedMtimeRereads | src/utils/intlayerCache.ts:48-63 | once the modification time changes, the file is read again and its new contents replace the entry |
| IntlayerCache.PathsIndependent | src/utils/intlayerCache.ts:60-63 | looking up one path does not change what another path gives |
| TtlCache.Fetch | src/providers/intlayerUnusedDecoration.ts:146-162 | a fresh entry answers without a scan; otherwise the scan's result is returned and, when it succeeded, stored with the current time; no other key changes |
| TtlCache.HitAfterStore | src/providers/intlayerUnusedDecoration.ts:151-157 | within the time to live of a stored scan the same key is answered from the cache |
| TtlCache.MissAfterExpiry | src/providers/intlayerContentDefinitionProvider.ts:42-48 | once the time to live has passed the scan runs again |
| DictionaryContent.KeywordsEnd | src/createDictionaryContent.ts:14-16 | the keywords of a pattern match in order from an index, each followed by at least one white-space character |
| DictionaryContent.CaptureAt | src/createDictionaryContent.ts:14-16 | the `(\w+)` group: a non-empty run of word characters right after the keywords, ending at the end of the text or before a non-word character |
| DictionaryContent.FirstMatch | src/createDictionaryContent.ts:18-28 | `match`: the leftmost index where the pattern matches, and none when it matches nowhere |
| DictionaryContent.DetectExportedName | src/createDictionaryContent.ts:12-35 | `export const` wins, then `export function`, then `export default function`; any name found is a non-empty run of word characters |
| DictionaryContent.MatchIsNotMissed | src/createDictionaryContent.ts:18-30 | wherever a pattern matches, a name is captured, at that index or an earlier one |
| DictionaryContent.LowerCamel | src/createDictionaryContent.ts:139-144 | the first character lowered, the rest unchanged |
| DictionaryContent.LowerCamelIdempotent | src/createDictionaryContent.ts:139-144 | lowering the first character twice is lowering it once |
| DictionaryContent.UndashedAppend | src/createDictionaryContent.ts:150-157 | taking out dashes distributes over concatenation |
| DictionaryContent.DashLowerUpperInserts | src/createDictionaryContent.ts:154 | the first replacement only inserts dashes, keeps the first character, and leaves no lower-case letter directly before an upper-case one |
| DictionaryContent.DashLowerUpperUndashed | src/createDictionaryContent.ts:154 | the first replacement only inserts dashes |
| DictionaryContent.DashLowerUpperShape | src/createDictionaryContent.ts:154 | after the first replacement no lower-case letter stands directly before an upper-case one |
| DictionaryContent.UndashedPlain | src/createDictionaryContent.ts:150-157 | text without dashes is its own undashed form |
| DictionaryContent.DashUpperRunInserts | src/createDictionaryContent.ts:155 | the second replacement only inserts dashes |
| DictionaryContent.UndashedLower | src/createDictionaryContent.ts:156 | lowering and taking out dashes commute |
| DictionaryContent.KebabOnlyInsertsDashes | src/createDictionaryContent.ts:150-157 | `toKebabCase` inserts dashes and lowers the letters, nothing else, and leaves no upper-case letter |
| DictionaryContent.KebabExample | src/createDictionaryContent.ts:146-148 | "MyNewComponent" becomes "my-new-component" |
| DictionaryContent.NoLowerUpperUnchanged | src/createDictionaryContent.ts:154 | text without a lower-case letter before an upper-case one is left as it is by the first replacement |
| DictionaryContent.NoUpperRunUnchanged | src/createDictionaryContent.ts:155 | text without two upper-case letters before a lower-case one is left as it is by the second replacement |
| DictionaryContent.ContentExtension | src/createDictionaryContent.ts:65-71 | `.content.js` exactly beside a `.jsx` file, `.content.ts` for everything else |
| DictionaryContent.NamingOf | src/createDictionaryContent.ts:80-97 | an empty base name gives `content` and the empty key; `index` in any case gives `indexContent` and `index`; otherwise the lower-camel name plus `Content` and the kebab-case key, which is the base name lowered once its dashes are taken out |
| DictionaryContent.Template | src/createDictionaryContent.ts:217-234 | a file text exists exactly for the four known formats |
| DictionaryContent.AtMiddle | src/createDictionaryContent.ts:162-198 | a text is found where it is placed between two others |
| DictionaryContent.CodeTemplateEmbeds | src/createDictionaryContent.ts:159-198 | a code template holds the declaration of the variable with its key and its default export |
| DictionaryContent.TemplatesEmbedNames | src/createDictionaryContent.ts:159-234 | the TypeScript, ESM and CommonJS templates declare the variable with `key: '<key>'` and export it by default; the JSON one holds `"key": "<key>",` |
| DictionaryContent.Generate | src/createDictionaryContent.ts:37-100 | the new file sits in the active file's directory, its name ends with the lower-camel base name and the content extension (`.content.js` exactly beside a `.jsx` file), its naming is that of the base name, and its text is empty exactly for an unknown format and otherwise declares the key and exports the variable |
| DictionaryContent.GeneratedBase | src/createDictionaryContent.ts:54-61 | the exported component's name when there is one, else the active file's name without its extension |
| DictionaryContent.GeneratedPath | src/createDictionaryContent.ts:63-77 | the path starts with the active file's directory and ends with the lower-camel base name and the content extension |
| DictionaryContent.TemplateFacts | src/createDictionaryContent.ts:217-234 | the text is empty exactly for an unknown format; a code template declares the key and exports the variable; the JSON one holds the key |
| DictionaryContent.ExportedNameWins | src/createDictionaryContent.ts:54-61 | an exported component names the new file's variable and key, whatever the file is called |
| ProjectRoot.FirstMatch | src/utils/findProjectRoot.ts:36-68 | the answer qualifies and is a directory the loop condition admits, no longer than the start; a qualifying start is the answer; a start the condition stops at gives nothing |
| ProjectRoot.Visited | src/utils/findProjectRoot.ts:36-67 | every directory the loop visits on the way up is one its condition admits |
| ProjectRoot.FirstMatchNoneIff | src/utils/findProjectRoot.ts:36-68 | the walk finds nothing exactly when no visited directory qualifies |
| ProjectRoot.FirstMatchIsFirst | src/utils/findProjectRoot.ts:36-68 | what the walk finds is a visited directory, and no directory visited before it qualifies |
| ProjectRoot.NoneBeforeCons | src/utils/findProjectRoot.ts:67 | a directory that does not qualify, passed on the way up, shifts the positions of the later ones by one |
| ProjectRoot.Walk | src/utils/findProjectRoot.ts:34-72 | the answer is recorded for the start directory; any other entry that changes is a found root recorded for itself; no entry is removed |
| ProjectRoot.FindProjectRoot | src/utils/findProjectRoot.ts:21-73 | no start path and no active file give undefined and no change; a start already in the table is answered from it; otherwise the answer is recorded for the start |
| ProjectRoot.WalkSound | src/utils/findProjectRoot.ts:36-72 | with a table whose every entry is the table-free answer, the walk answers as if it had no table and keeps the table so |
| ProjectRoot.SoundUpdate | src/utils/findProjectRoot.ts:44-71 | recording the table-free answer keeps the table sound |
| ProjectRoot.MemoIsTransparent | src/utils/findProjectRoot.ts:21-73 | the memoised search answers the first directory up the walk whose package.json lists `intlayer`, else the first workspace folder |
| ProjectRoot.AskingAgainHits | src/utils/findProjectRoot.ts:29-32 | asking again for the same start answers the same from the table, without changing it |
| ProjectRoot.FindProjectRootOld | src/findProjectRoot.ts:13-33 | the older search answers a directory holding both package.json and .intlayer that the loop admits; a start directory holding both is the answer; being `FirstMatch`, it answers the first such directory visited |
| FormatCommand.ProbeFollowsFormatters | src/detectFormatCommand.ts:26-56 | the three `try` blocks give the command of the first formatter of prettier, biome, eslint that the project resolves |
| FormatCommand.Detect | src/detectFormatCommand.ts:6-57 | a configured command is returned without touching the memo; an earlier probe's answer, `undefined` included, is reused; otherwise the probe runs and its answer is remembered |
| FormatCommand.ProbePriority | src/detectFormatCommand.ts:26-56 | Prettier wins over Biome and Biome over ESLint; nothing is found exactly when none resolves |
| FormatCommand.ProbedOnce | src/detectFormatCommand.ts:18-56 | after the first probe, later calls without a configured command return its answer even when the project has changed |
| FormatCommand.ConfiguredLeavesMemo | src/detectFormatCommand.ts:12-16 | a configured command is not cached, so removing it again gives what the memo gave before |
| EnvStore.Initialize | src/utils/envStore.ts:10-16 | the workspace state is remembered; a saved record replaces the in-memory map, anything else leaves it |
| EnvStore.Get | src/utils/envStore.ts:18-22 | a project has an environment exactly when the map holds it, and it is the stored one |
| EnvStore.Set | src/utils/envStore.ts:24-32 | the project gets the environment, every other project keeps its own, and once initialised the whole map is saved |
| EnvStore.GetAll | src/utils/envStore.ts:34-36 | a copy with the same projects and environments |
| EnvStore.SetThenGet | src/utils/envStore.ts:18-32 | reading back what was set gives it; other projects read as before |
| EnvStore.PersistedRestores | src/utils/envStore.ts:10-31 | after initialisation, the saved state restores exactly the map in memory |
| EnvStore.NothingSavedBeforeInit | src/utils/envStore.ts:29 | before initialisation nothing is saved, whatever is set |
| EnvLoader.Candidates | src/utils/loadEnvFromWorkspace.ts:16-20 | `.env.<env>.local` and `.env.<env>` when an environment is given, then always `.env.local` and `.env` |
| EnvLoader.Merge | src/utils/loadEnvFromWorkspace.ts:29-33 | variables already set keep their value, and the result defines exactly the old variables and the file's |
| EnvLoader.NamesOfTail | src/utils/loadEnvFromWorkspace.ts:29 | the names of a file's variables are the first one's and the rest's |
| EnvLoader.FirstOccurrenceWins | src/utils/loadEnvFromWorkspace.ts:29-33 | a variable the environment lacks takes the value of its first occurrence in the file |
| EnvLoader.FirstReadable | src/utils/loadEnvFromWorkspace.ts:22-44 | the first candidate that reads and parses, with every earlier one failing; nothing when all fail |
| EnvLoader.LoadEnv | src/utils/loadEnvFromWorkspace.ts:6-47 | it fails exactly without a workspace folder; otherwise it returns the first readable candidate's variables and merges them into the environment, which is untouched when none reads |
| EnvLoader.LaterCandidatesIgnored | src/utils/loadEnvFromWorkspace.ts:42 | candidates after the first readable one are never consulted |
| EnvLoader.ExistingVariablesWin | src/utils/loadEnvFromWorkspace.ts:30-32 | a variable already set keeps its value, and any new variable comes from the file that was read |
| EnvLoader.EnvLocalFileFirst | src/utils/loadEnvFromWorkspace.ts:17-42 | with an environment named, its `.local` file wins whenever it reads |
| SelectEnvironment.EnvNameOf | src/commands/selectEnvironment.ts:18-28 | a name comes only from a `.env.` file, is neither empty nor `local`, and is what follows the prefix, without a `.local` suffix |
| SelectEnvironment.Declared | src/commands/selectEnvironment.ts:18-29 | the names added are exactly those the directory's files declare |
| SelectEnvironment.DiscoverEnvNames | src/commands/selectEnvironment.ts:14-34 | an unreadable directory gives none; otherwise exactly the declared names, each once, none empty or `local` |
| SelectEnvironment.DedupeDistinctAppend | src/commands/selectEnvironment.ts:80 | `new Set` of two distinct lists is the first followed by the second's new names, in order |
| SelectEnvironment.DistinctSnoc | src/commands/selectEnvironment.ts:80 | the last element of a distinct list is not among the others |
| SelectEnvironment.AppendNewStep | src/commands/selectEnvironment.ts:80 | one more name keeps the order of `new Set` |
| SelectEnvironment.DedupeDistinct | src/commands/selectEnvironment.ts:80 | `new Set` of a distinct list is the list |
| SelectEnvironment.OptionsWellKnownFirst | src/commands/selectEnvironment.ts:80-81 | the options are production, development and test, in order, then the discovered names not among them |
| SelectEnvironment.WellKnownDistinct | src/commands/selectEnvironment.ts:12 | the well-known names are distinct and non-empty |
| SelectEnvironment.PrependedFirst | src/commands/selectEnvironment.ts:80-81 | `new Set` without empty names keeps the first list and adds the second's new names |
| SelectEnvironment.EnvOptions | src/commands/selectEnvironment.ts:80-85 | one entry per option, in order, marked current exactly when it is the stored environment |
| SelectEnvironment.AtMostOneCurrent | src/commands/selectEnvironment.ts:84 | at most one entry is marked current |
| SelectEnvironment.FilterOfDistinct | src/commands/selectEnvironment.ts:81 | filtering a distinct list keeps it distinct |
| SelectEnvironment.OrderedRoots | src/commands/selectEnvironment.ts:51-53 | with a current project it comes first, followed by the other roots in order; otherwise the roots as they are |
| SelectEnvironment.OrderedRootsPermutes | src/commands/selectEnvironment.ts:51-53 | for distinct roots holding the current one, the order is a permutation |
| SelectEnvironment.RemoveOnce | src/commands/selectEnvironment.ts:52 | filtering out the current project from distinct roots removes exactly one entry |
| SelectEnvironment.ChooseProjectAsWritten | src/commands/selectEnvironment.ts:40-48 | a project from the context is used as it is |
| SelectEnvironment.ProjectListNeverOffered | src/commands/selectEnvironment.ts:42-48 | as written, the project list is never offered, however many projects the workspace holds |
| SelectEnvironment.ProjectLabelAsWritten | src/commands/selectEnvironment.ts:55-61 | without a workspace folder the label is the absolute path |
| SelectEnvironment.RootLabelEmpty | src/commands/selectEnvironment.ts:56-60 | as written, the workspace root itself is labelled "" |
| SelectEnvironment.ProjectLabel | src/commands/selectEnvironment.ts:55-61 | the label is never empty for a non-empty path, and differs from the written one only by "." in place of "" |
| SelectEnvironment.ChooseProject | src/commands/selectEnvironment.ts:40-71 | with the roots awaited: a project from the context is used; otherwise the warning appears exactly when there are no projects, and a picked project is one of the ordered roots |
| SelectEnvironment.AwaitedRootsOffered | src/commands/selectEnvironment.ts:42-70 | with the roots awaited, picking the first entry picks the current project |
| Explorer.NormalizeQuery | src/explorer/dictionaryExplorer.ts:59-63 | the stored query is trimmed and non-empty; none is stored for no query or a blank one |
| Explorer.QueryText | src/explorer/dictionaryExplorer.ts:65-67 | the stored query, or "" without one |
| Explorer.TrimmedIsFixed | src/explorer/dictionaryExplorer.ts:61 | text without white space at either end trims to itself |
| Explorer.QueryRoundTrip | src/explorer/dictionaryExplorer.ts:59-67 | setting the query the view reports leaves the stored query as it is |
| Explorer.JsonFiles | src/explorer/dictionaryExplorer.ts:138-142 | the listing's `.json` names, each as often as listed, sorted |
| Explorer.ProjectTitle | src/explorer/dictionaryExplorer.ts:144-153 | the package name when it is a non-empty string, else the directory's base name |
| Explorer.EnvOf | src/explorer/dictionaryExplorer.ts:127-155 | the dictionary directory falls back to the project directory; a missing directory has no files, an existing one its sorted `.json` files |
| Explorer.RootChildrenAsWritten | src/explorer/dictionaryExplorer.ts:115-119 | never more nodes than projects |
| Explorer.RootAlwaysEmpty | src/explorer/dictionaryExplorer.ts:116-118 | as written, the root level is empty whatever projects the workspace holds, where the awaited roots give one node per project |
| Explorer.RootChildren | src/explorer/dictionaryExplorer.ts:160-169 | with the roots awaited, one environment node per cached project, in order, with its directory, dictionary directory and label |
| Explorer.FindEnv | src/explorer/dictionaryExplorer.ts:174-176 | the first cached project with that directory, and none exactly when no project has it |
| Explorer.DictNodes | src/explorer/dictionaryExplorer.ts:202-208 | one dictionary node per file, in order |
| Explorer.EnvChildren | src/explorer/dictionaryExplorer.ts:172-209 | an unknown project has no children; without a search, a node per file; under a search, a node per file whose key or text contains the query, in any case |
| Explorer.MatchingKeyListed | src/explorer/dictionaryExplorer.ts:184-187 | under a search, a dictionary whose key contains the query is listed whatever its file holds |
| Explorer.FilePaths | src/explorer/dictionaryExplorer.ts:217-231 | the string file paths of the entries, each once, and without a search in their first-seen order |
| Explorer.MatchingPathsFirst | src/explorer/dictionaryExplorer.ts:221-229 | under a search, every path containing the query is shown before every other one |
| Explorer.FileNodes | src/explorer/dictionaryExplorer.ts:233-238 | one file node per path, in order |
| Explorer.DictionaryChildren | src/explorer/dictionaryExplorer.ts:211-247 | an unreadable dictionary file has no children; otherwise the file nodes of its file paths |
| Explorer.GetParent | src/explorer/dictionaryExplorer.ts:258-287 | an environment has no parent; a file's parent is its dictionary; a dictionary has a parent exactly when its project is cached |
| Explorer.DictionaryParentIsItsEnv | src/explorer/dictionaryExplorer.ts:271-285 | a dictionary listed under a project has that project's node as parent |
| Explorer.FileParentIsItsDictionary | src/explorer/dictionaryExplorer.ts:259-269 | a file listed under a dictionary has that dictionary as parent |
| Explorer.FindInFiles | src/explorer/dictionaryExplorer.ts:89-108 | nothing is found exactly when no dictionary file of the project lists the relative path; otherwise the node names the first file that does |
| Explorer.FindFileNode | src/explorer/dictionaryExplorer.ts:76-111 | nothing is found exactly when no project, with the path inside it, has a dictionary file listing it; otherwise the first such project answers, with the path relative to it, not starting with "..", and listed by its dictionary file |
| Explorer.NodeIn | src/explorer/dictionaryExplorer.ts:84-108 | a project the path lies outside of answers nothing; an answer is a file node of that project with the relative path, listed by its dictionary file |
| Explorer.FirstHit | src/explorer/dictionaryExplorer.ts:83-110 | the answer is nothing exactly when no element gives one; otherwise it is the answer of the first element that gives one |
| Explorer.FirstHitStep | src/explorer/dictionaryExplorer.ts:83-110 | past a first element that gives nothing, the first hit among the rest is the first in the whole list |
| Explorer.HitIsListedFile | src/explorer/dictionaryExplorer.ts:97-104 | what a project answers is a file node of that project, with the path relative to it and listed by its dictionary file |
| Explorer.ListedPathFound | src/explorer/dictionaryExplorer.ts:89-108 | a path some project's dictionary file lists, relative to that project, is always found |
| Explorer.OutsideProjectSkipped | src/explorer/dictionaryExplorer.ts:84-88 | a project the path lies outside of is skipped, whatever its files hold |
| TabExplorer.TabQueryText | src/tab/dictionaryExplorer.ts:62-64 | the stored query when it is non-empty, else "" |
| TabExplorer.QueryGettersAgree | src/tab/dictionaryExplorer.ts:62-64 | for every query the setter stores, `||` and `??` give the same text |
| TabExplorer.TabEnvOf | src/tab/dictionaryExplorer.ts:124-152 | a project is listed exactly when its dictionary directory is configured, exists and holds `.json` files, with those files sorted and its label |
| TabExplorer.TabEnvs | src/tab/dictionaryExplorer.ts:118-154 | the cached projects are exactly those the root level keeps, no more than the roots |
| TabExplorer.TabRootChildrenAsWritten | src/tab/dictionaryExplorer.ts:112-116 | never more nodes than projects |
| TabExplorer.TabRootAlwaysEmpty | src/tab/dictionaryExplorer.ts:113-115 | as written, the tab's root level is empty even when a project has listable dictionaries, where the awaited roots show that project's node |
| TabExplorer.TabRootChildren | src/tab/dictionaryExplorer.ts:204-211 | without a search, one environment node per cached project, in order |
| TabExplorer.TabEnvChildren | src/tab/dictionaryExplorer.ts:215-230 | an unknown project has no children; a known one a dictionary node per file, with or without a search |
| TabExplorer.TabDictionaryChildren | src/tab/dictionaryExplorer.ts:232-271 | no children for an unreadable file or under a search the serialised entries do not contain; otherwise the explorer view's children |
| TabExplorer.SameFilesWithoutSearch | src/tab/dictionaryExplorer.ts:232-264 | without a search both views list the same files under a dictionary |
| TabExplorer.TabGetParent | src/tab/dictionaryExplorer.ts:282-311 | like the explorer view, except that an empty cached label also falls back to the directory's base name |
| TabExplorer.ParentsAgreeOnListedProjects | src/tab/dictionaryExplorer.ts:289-292 | the two fallbacks agree whenever the cached label is non-empty |
| LogFunctions.SequenceAt | src/utils/logFunctions.ts:8 | a match of `\x1b\[[0-9;]*m` at the start: escape, `[`, digits and semicolons, then `m` |
| LogFunctions.StripAnsi | src/utils/logFunctions.ts:6-8 | removing the colour codes never lengthens the text, leaves text without an escape unchanged, and adds no escape |
| LogFunctions.StripPlainPrefix | src/utils/logFunctions.ts:8 | text without escapes passes through unchanged and what follows it is stripped on its own |
| LogFunctions.StripSequence | src/utils/logFunctions.ts:8 | a complete colour sequence is removed and the scan goes on after it |
| LogFunctions.StripUndoesColour | src/utils/logFunctions.ts:3-8 | coloured text loses exactly its colour codes |
| LogFunctions.Render | src/utils/logFunctions.ts:14 | `join` shows a string as itself and `null`/`undefined` as "" |
| LogFunctions.RenderAll | src/utils/logFunctions.ts:14 | each element rendered, in order |
| LogFunctions.Flat | src/utils/logFunctions.ts:14 | `.flat()` opens one level of arrays: every non-array element and every element of an array element is kept |
| LogFunctions.LoggedText | src/utils/logFunctions.ts:12-22 | the logger passes its argument array as one argument, so the text shown is the arguments rendered, joined by spaces, colour codes removed |
| LogFunctions.PlainStringsShownAsIs | src/utils/logFunctions.ts:12-37 | plain strings without colour codes are shown as they are, joined by spaces |
| Transform.Dependencies | src/commands/transformCommand.ts:10-22 | a missing or broken package.json gives `{}`; otherwise its truthy `dependencies`, else `{}` |
| Transform.FirstDeclaredIsFirst | src/commands/transformCommand.ts:45-61 | the first name of a list the dependencies declare, with none before it; nothing when none is declared |
| Transform.PackageByPriority | src/commands/transformCommand.ts:43-61 | the package is the first of next, vue, svelte, react, preact, solid, angular, express `-intlayer` that is declared, and `react-intlayer` when none is |
| Transform.ChainOfEight | src/commands/transformCommand.ts:45-61 | the eight `else if` tests are the first-declared search over eight names |
| Transform.ChainOfTwo | src/commands/transformCommand.ts:45-48 | two tests in front of the rest of the names |
| Transform.DetectPackage | src/commands/transformCommand.ts:43-61 | always one of the framework packages, and a declared one unless it is the default |
| Transform.BrokenPackageFileGivesDefault | src/commands/transformCommand.ts:13-43 | a project without a usable package.json gets `react-intlayer` |
| Transform.ProjectDir | src/commands/transformCommand.ts:25-35 | the project found for the resource; otherwise the workspace folder exactly when there is only one, else the error |
| Transform.FilesToTransform | src/commands/transformCommand.ts:63-111 | a resource is transformed alone; with nothing found or the pick dismissed nothing is; otherwise the picked non-empty paths, and nothing when that leaves none |
| Transform.Picked | src/commands/transformCommand.ts:104-106 | the non-empty paths of the picked items, every one of them |
| Transform.TransformsExactlySelected | src/commands/transformCommand.ts:63-111 | with no resource and files found, a path is transformed exactly when it is the non-empty path of a picked item |
| Transform.PickedIsSelected | src/commands/transformCommand.ts:104-106 | a path is among the picked paths exactly when some picked index names it and it is non-empty |
| MissingReport.Group | src/testCommand.ts:10-23 | the groups are keyed by exactly the keys present, and none is empty |
| MissingReport.GroupIsFilter | src/testCommand.ts:13-21 | each group holds exactly the dictionaries with its key, in input order |
| MissingReport.FilterOtherKeys | src/testCommand.ts:13-21 | no dictionary has a key absent from the input's keys |
| MissingReport.FilterKeepsCopies | src/testCommand.ts:19 | a filter keeps every copy of an element it accepts |
| MissingReport.GroupKeepsEveryDictionary | src/testCommand.ts:13-21 | every dictionary sits in the group of its key, as often as in the input, and in no other group |
| MissingReport.GroupAsWritten | src/testCommand.ts:13-23 | when the reduce succeeds it groups by exactly the keys present |
| MissingReport.GroupAsWrittenFailsOnInheritedKeys | src/testCommand.ts:16-19 | the reduce on a plain `{}` throws exactly when some key is a name every object inherits, and otherwise is the intended grouping |
| MissingReport.ConstructorKeyThrows | src/testCommand.ts:16-19 | a single dictionary keyed "constructor" makes the command fail |
| MissingReport.LocaleList | src/commands/testCommand.ts:15-24 | an empty locale list is shown as an em dash |
| MissingReport.FileLabel | src/commands/testCommand.ts:36 | the file path when known, "(unknown file)" otherwise |
| MissingReport.ItemLines | src/commands/testCommand.ts:35-41 | four lines per missing translation, the last one empty, none mistakable for the all-clear line |
| MissingReport.ItemBlocks | src/commands/testCommand.ts:35-41 | four lines per missing translation, none mistakable for the all-clear line |
| MissingReport.ItemBlockAt | src/commands/testCommand.ts:35-41 | the `i`-th block is the lines of the `i`-th missing translation |
| MissingReport.Header | src/commands/testCommand.ts:12-26 | no header line is mistakable for the all-clear line |
| MissingReport.CountLines | src/commands/testCommand.ts:31-34 | no count line is mistakable for the all-clear line |
| MissingReport.Report | src/commands/testCommand.ts:8-43 | the all-clear line appears exactly when no key is missing; otherwise the report has a header and four lines per missing translation |
| MissingReport.ReportListsEveryItem | src/commands/testCommand.ts:35-41 | every missing translation gets its own block of key, file and locales, at its place |
| MissingReport.SliceAfter | src/commands/testCommand.ts:11-41 | a window of the second part of a concatenation |
| MissingReport.ReadList | src/commands/testCommand.ts:39 | one piece per comma-separated part |
| MissingReport.SplitLocaleJoin | src/commands/testCommand.ts:39 | splitting a `", "`-joined list at commas gives the items, every one after the first with its leading space |
| MissingReport.ReadListJoin | src/commands/testCommand.ts:39 | printed and read back, a list of items without commas or leading spaces is unchanged |
| MissingReport.LocaleCodePlain | src/commands/testCommand.ts:39 | a locale code holds no comma and does not start with a space |
| MissingReport.LocaleListRoundTrip | src/commands/testCommand.ts:15-24 | a summary's locale list reads back as the locales it lists, the em dash as none |
| MissingReport.LocaleListOneLine | src/commands/testCommand.ts:15-24 | a list of one-line locales is one line |
| MissingReport.ItemBlocksOneLine | src/commands/testCommand.ts:35-41 | the blocks of one-line items hold no line break |
| MissingReport.DocumentLines | src/commands/testCommand.ts:44-47 | reading the opened document line by line gives the report's lines back |
| MissingReport.ReportOneLine | src/commands/testCommand.ts:11-42 | no line of the markdown report holds a line break |
| MissingReport.AllOneLine3 | src/commands/testCommand.ts:11-42 | three runs of one-line lines make one run |
| MissingReport.HeaderOneLine | src/commands/testCommand.ts:12-26 | the header lines hold no line break |
| MissingReport.CountOneLine | src/commands/testCommand.ts:31-34 | the count lines of the markdown report hold no line break |
| MissingReport.TestCommand | src/commands/testCommand.ts:51-77 | without a project root the error is shown; the report opens exactly when the CLI answers with missing keys or locales, holding the markdown report; a thrown error is shown with its message |
| MissingReport.OnlyLocalesMissing | src/commands/testCommand.ts:28-68 | when only locales are missing, a report opens that still says no key is missing |
| ContentDeclaration.ActiveRelative | src/utils/selectContentDeclaration.ts:12-15 | the active file's path relative to the project, exactly when an editor is open |
| ContentDeclaration.PickItems | src/utils/selectContentDeclaration.ts:20-26 | one item per dictionary file, in listing order, labelled with its relative path and preselected exactly when that is the active file's |
| ContentDeclaration.Offered | src/utils/selectContentDeclaration.ts:20-28 | one item per dictionary file |
| ContentDeclaration.Below | src/utils/selectContentDeclaration.ts:17 | one file per relative path |
| ContentDeclaration.OfferedPickedFirst | src/utils/selectContentDeclaration.ts:27-28 | the stable sort is a permutation that puts the preselected items first, in listing order |
| ContentDeclaration.PickedIsActive | src/utils/selectContentDeclaration.ts:25-28 | every preselected item carries the active file's relative path |
| ContentDeclaration.SelectedPaths | src/utils/selectContentDeclaration.ts:30-39 | a dismissed pick gives undefined; otherwise one path per chosen item, its label joined onto the project directory |
| ContentDeclaration.OfferedFromFile | src/utils/selectContentDeclaration.ts:20-28 | every offered item is labelled with the relative path of a listed file |
| ContentDeclaration.SelectedAreListed | src/utils/selectContentDeclaration.ts:14-39 | for dictionary files below the project directory, every path returned is one of the listed files |

## Left out

- The VS Code host: decorations, hovers, `Location`/`Range` objects (the model uses line and character pairs), tree
  items and `getTreeItem`, quick-pick and message UI, webviews and activation. They are rendering and glue; the
  model keeps the values they are given.
- ts-morph: the parser is replaced by the `Syntax` datatype of what it produces (calls, bindings, identifier
  parents, object literals). `JSON.parse`, dotenv's `parse` and `TextDecoder` are given values or oracles.
- The file system and workspace search (`existsSync`, `readFileSync`, `stat`, `findFiles`, `readdirSync`) are
  oracles or parameters. The enumeration inside `findAllProjectRoots` is I/O and is not modelled; its result is a
  parameter.
- The commands that call the Intlayer CLI, the API or the file watcher (build, fill, push, pull, the
  transformation itself and `listMissingTranslations`) are left out: they only forward to code that is not part of
  this model. Their picked-first ordering is the one modelled once in `ContentDeclaration`.
- The fuzzy search of the tab view (src/tab/dictionaryExplorer.ts:156-203) uses fuse.js with floating-point
  scores, which is not part of this model.
- The debounce timers of the two decorations (src/providers/intlayerDecoration.ts:40-49,
  src/providers/intlayerUnusedDecoration.ts:59-68) are timing and cooperative concurrency. The caches take the
  clock as a parameter instead.
- The configuration plumbing (`config-built.ts`, `getConfiguration.ts`, `hasClientId.ts`, `replaceConsoleLog.ts`,
  the build configuration) is host and build glue. The configuration values it yields are parameters.
- Numbers are integers: floating-point values and their `String` form are not modelled.
- `toLowerCase` is ASCII-only and there is no Unicode case mapping or normalisation.
- Keys are interpolated unescaped into regular expressions in the source. The model treats them as literal text,
  which agrees with the source for identifier-like keys only.
- JavaScript objects are ordered field sequences with own properties only. Key order of non-index keys is the
  insertion order of the sequence. Prototype members are modelled only where they make the source fail
  (`MissingReport.GroupAsWritten`).
- The hover's markdown rendering beyond the section text is not modelled.
- `createDictionaryContent` writes the file, asks before overwriting and opens it. Those are I/O; the model stops at
  the path and the text.
- The transform command's file glob, its saving of dirty editors and the transformation itself are I/O or CLI
  calls. The file list is a parameter.
- The older test command's `loadDictionaries` call and its "No dictionaries" warning are not modelled. The model
  covers the grouping and the report text.
- Log arguments that are objects are left out (`Arg` has no object case), and so is the console echo of the
  messages.
- The workspace folder is a parameter of each call, so a folder that changes between two `findProjectRoot` calls
  sharing one memo table is not modelled.
- ProjectRoot.FindProjectRootOld: its own contract states only that the answer qualifies and that a qualifying
  start wins. That it is the first qualifying directory visited follows from `ProjectRoot.FirstMatchIsFirst`,
  because it is `FirstMatch` with the older test.
- Decoration.ElementText: only the falsy and boolean cases are stated. The text of strings, numbers, arrays and
  `props.children` is defined but not stated as a separate property.
- Decoration.RawText: the text of numbers, arrays and element-like nodes is defined but not stated; only the cases
  that give nothing, a boolean and a string are stated.
- Decoration.ParseContentValue: for numbers, arrays and element-like nodes only the length bound and single spacing
  are stated, not the text.
- Explorer.RootChildrenAsWritten: its own contract states only a bound. That it is always empty is stated by
  `Explorer.RootAlwaysEmpty`.
- Strings are sequences of Unicode scalar values, not of UTF-16 code units. Lengths, `substring` positions and
  string order differ from JavaScript on characters outside the Basic Multilingual Plane. This affects the
  60-character cut of `Decoration.DisplayText`, the `.length` comparisons, and the order `sort()` gives in
  `Explorer.JsonFiles`.
- `Paths.Join` joins with "/" and does not normalise "." or ".." segments, where Node's `path.join` does. So
  `Definition.TargetOf` and `ContentDeclaration.SelectedPaths` can give "proj/../x" or "proj/./x" where the
  source gives the normalised path.
- Decoration.UpdateDecorations: the order of the decorations is not stated. Its contract says which previews are
  kept, not that they keep the candidates' order, although the model does keep it.
- Decoration.UpdateDecorations: the early return when no project root is found (src/providers/intlayerDecoration.ts:76-78)
  is not modelled. The project's dictionaries and default locale are parameters, so the function always computes
  decorations, where the source leaves the editor's earlier decorations in place.
- TabExplorer.TabRootChildren: only the root level without a search is stated. Under a search the root level is
  the fuzzy search's result, which is left out above.

## Findings

| source | as written | input that shows it | evidently intended | confidence | as-written member | corrected member |
|---|---|---|---|---|---|---|
| src/commands/selectEnvironment.ts:42-48 | `findAllProjectRoots()` is used without `await`, so `roots.length` is undefined and the warning branch is always taken | a workspace with one or more Intlayer projects and no project passed from the context: "No Intlayer projects found in workspace." is shown and no list is offered | await the roots, warn only when there are none, and offer the roots with the current project first | not executed | SelectEnvironment.ProjectListNeverOffered | SelectEnvironment.AwaitedRootsOffered |
| src/explorer/dictionaryExplorer.ts:116-118 | the same unawaited call at the root of the tree view, so the root level is always empty | a workspace with one Intlayer project: the view shows nothing | one environment node per project | not executed | Explorer.RootAlwaysEmpty | Explorer.RootChildren |
| src/tab/dictionaryExplorer.ts:113-115 | the Intlayer tab's tree view makes the same unawaited call at its root, so the projects `TabEnvOf` would list are never read | a workspace with one project whose dictionary directory holds `.json` files: the tab shows nothing | one environment node per listed project | not executed | TabExplorer.TabRootAlwaysEmpty | TabExplorer.TabRootChildren |
| src/commands/selectEnvironment.ts:60 | `relPath ?? "."` never falls back, because `relative` returns "" rather than undefined for the workspace root | a project at the workspace root: its entry has an empty label | label the workspace root itself "." | not executed | SelectEnvironment.RootLabelEmpty | SelectEnvironment.ProjectLabel |
| src/testCommand.ts:16-19 | the accumulator is a plain `{}`, so `acc["constructor"]` is the inherited `Object` function: the group is not created and `push` throws | one dictionary whose key is "constructor" | a group per key whatever the key, as with a prototype-free accumulator | not executed | MissingReport.ConstructorKeyThrows | MissingReport.GroupIsFilter |
