# get-google-fonts, modelled in Dafny

`get-google-fonts` downloads a Google Fonts stylesheet, saves every font the
stylesheet refers to next to it, and rewrites the stylesheet so that it points
at the local copies (or inlines them as base64 data URLs). This project models
the logic of `main.js`. It is made of the following modules:

- `Strings` (strings.dfy) holds the JavaScript string primitives the code relies on:
  - `replace` with a string pattern, which replaces only the first occurrence and expands `$` patterns;
  - `trim`, the `\s+` fold, ASCII `toLowerCase`, `split` and `join`;
  - number formatting.
- `JsValues` (js_values.dfy) models the dynamically typed values of the public API, including `typeof`, `String(v)` and the `arrayFrom` helper.
- `Template` (template.dfy) is the filename template engine `format`. It follows the regular expression `([^{]|^){key}([^}]|$)` literally, including the neighbour characters it consumes, and ends with the brace-pair collapse.
- `Config` (config.dfy) holds the defaults, `filterConfig`, `setConfig`/`getConfig` and the option merge of `repairInput`.
- `NodePath` (node_path.dfy) models POSIX `path.extname` and `path.basename(p, ext)`.
- `CssTransform` (css_transform.dfy) covers `transformCss` and `normalizeFonts`.
  - The input is an abstract parse: one `FaceBlock` per `@font-face` block, each holding its `url(...)` tokens.
  - It yields one font entry per kept token, with the counter `i` threaded through.
  - A block without a family or a weight throws.
- `Rewriter` (rewriter.dfy) is the sequential first-occurrence rewrite of the stylesheet.
- `Persistence` (persistence.dfy) is `saveFiles` over an abstract file system. It is a map from (directory, name) to contents, with a set of directories, and the network is a map from URL to response.
- `GoogleUrl` (google_url.dfy) is `constructUrl`. It covers family sanitising, weight filtering, the merge of families that sanitise alike, rendering, the subset filter and the final URL fix-ups.
- `Pipeline` (pipeline.dfy) contains `repairUrl`, `repairInput`, the status rule and `download` as a composition of the above.

`Results` (results.dfy) holds the `Option`/`Result` wrappers. Its `Error` names the two ways the code fails:
- a thrown `TypeError`;
- an HTTP error reported by the request library.

## Model

| member | source | states |
|---|---|---|
| Strings.ReplaceFirst | main.js:275 | `css.replace(inputText, outputText)` with a string pattern: a text without an occurrence is unchanged; with one, a `$`-free replacement changes the length by exactly the difference between replacement and pattern (one occurrence replaced) |
| Strings.ReplaceFirstSplices | main.js:275 | when the pattern first occurs right after `a`, replacing it in `a + pat + b` yields `a + rep + b` for a `$`-free replacement |
| Strings.ExpandWithoutDollar | main.js:297 | a replacement without `$` is inserted verbatim |
| Strings.Trim | main.js:384 | `trim` leaves no whitespace at either end and never lengthens the text |
| Strings.TrimKeepsMiddle | main.js:384 | `trim` removes only whitespace, and only at the ends: the result is a contiguous slice of the text with whitespace alone before and after it |
| Strings.FoldSpaces | main.js:134 | `.replace(/\s+/g, rep)` leaves no whitespace when `rep` has none, and introduces no character besides those of the text and of `rep`; FoldSpacesSplit states that each run becomes exactly one `rep` |
| Strings.FoldSpacesWithoutSpace | main.js:385 | text without whitespace is left as it is |
| Strings.FoldSpacesSplit | main.js:385 | a whitespace run of any length between a space-free word and text not starting with whitespace becomes exactly one `rep`, and the text after it is folded on its own |
| Strings.ToLower | main.js:416 | `toLowerCase` keeps the length and lowers exactly the ASCII capitals |
| Strings.SplitOn | main.js:117 | `split` on a one-character separator yields at least one piece, and no piece holds the separator; the round trips are JoinSplit and SplitJoin |
| Strings.JoinSplit | main.js:117 | `split(d)` followed by `join(d)` gives back the original string |
| Strings.SplitJoin | main.js:117 | joining pieces free of `d` and splitting on `d` gives back the pieces |
| Strings.NatToString | main.js:195 | the decimal text of the counter is non-empty, all digits and without a leading zero; NatToStringRoundTrip reads it back |
| Strings.NatToStringRoundTrip | main.js:195 | the decimal text of the counter `i` reads back as `i` |
| Strings.NatToStringInjective | main.js:195 | different counter values print differently |
| JsValues.ArrayFrom | main.js:115-119 | `arrayFrom` fails exactly on `undefined`/`null`, returns an array unchanged and splits a string into delimiter-free pieces |
| JsValues.ArrayFromStringRoundTrip | main.js:115-117 | the pieces of a string joined with the delimiter give back the string |
| Config.FilterConfig | main.js:66-79 | never adds keys or changes values, keeps an entry exactly when its `typeof` equals that of the default for its key, and so yields a well-typed object |
| Config.FilterConfigIdempotent | main.js:66-79 | filtering twice is filtering once |
| Config.FilterConfigKeepsWellTyped | main.js:66-79 | a well-typed object passes unchanged |
| Config.DefaultsComplete | main.js:22-36 | the defaults are well typed and hold every option |
| Config.SetConfig | main.js:336-344 | the stored object is well typed, holds every correctly typed given value, and no key from outside the call, the defaults and (without reset) the previous configuration |
| Config.NewConfig | main.js:329-334 | the constructor's `setConfig(config)` with reset stores a well-typed object; its contents are described by SetConfig |
| Config.GetConfig | main.js:348-352 | `getConfig` returns a well-typed object; GetConfigComplete and SetThenGet state its contents |
| Config.SetThenGet | main.js:336-352 | after `setConfig`, `getConfig` reports a correctly typed given value; a given value of the wrong type overwrites the stored one and is filtered out, so the default comes back even without reset; a key the call leaves out keeps its previous value when not resetting, else the default |
| Config.GetConfigComplete | main.js:348-352 | `getConfig` returns every default key with a correctly typed value: the stored one when present, else the default |
| Config.OptionsOf | main.js:364-367 | `Object.assign` copies nothing from a value without own entries; for an object or array the copy is EntriesToMap of its entries |
| Config.EntriesToMap | main.js:364-367 | every entry's key is present, and every present key's value comes from an entry with that key; EntriesToMapLastWins states which entry wins |
| Config.EntriesToMapLastWins | main.js:364-367 | `Object.assign` copies the entries in order, so an entry whose key does not come again later gives the key's value |
| Config.MergeOptionsAsWritten | main.js:364-367 | the merge as written yields a well-typed object (but not necessarily a complete one) |
| Config.MistypedOptionLosesDefault | main.js:364-367 | with `{template: 5}` the merge as written has no `template` at all |
| Config.MergeOptions | main.js:364-367 | the corrected merge is complete; each option is the call's value if correctly typed, else the stored one if correctly typed, else the default |
| Config.MergeOptionsAgreesOnWellTyped | main.js:364-367 | on well-typed arguments the corrected merge equals the merge as written |
| Config.ToSettings | main.js:22-36 | the record of a complete configuration carries exactly its option values |
| Config.DefaultSettings | main.js:22-36 | the defaults read as `./fonts`, `./`, the default template, `fonts.css`, the user agent, and base64 off, overwriting off, strictSSL on, verbose off, simulate off |
| Template.Format | main.js:44-60 | no contract; described by FormatBraceFreeTemplate, FormatSinglePlaceholder, AdjacentRepeatNotReplaced and DoubledBracesEscapePlaceholder |
| Template.Substitute | main.js:45-58 | no contract; described by SubstituteWithoutPlaceholders and SubstituteSplit |
| Template.ReplaceKey | main.js:52-56 | no contract; described by ReplaceKeyWithoutPlaceholder, ReplaceKeyEscapedUnchanged, ReplaceKeyAgreesWhenSeparated and ReplaceKeyIsolated |
| Template.CollapseBraces | main.js:59 | no contract; described by CollapseEscapeRoundTrip, CollapseWithoutBraces and CollapseSuffix |
| Template.TrimTrailingDot | main.js:196 | one trailing dot is removed and nothing else changes; a name without one is unchanged |
| Template.ReplaceKeyWithoutPlaceholder | main.js:52-56 | a text without `{key}` is unchanged by that key's pass |
| Template.ReplaceKeyEscapedUnchanged | main.js:52-56 | a text whose every placeholder is directly preceded by `{` or followed by `}` is unchanged by the pass |
| Template.ReplaceKeyAgreesWhenSeparated | main.js:52-56 | when occurrences are neither escaped nor adjacent, the pass replaces every occurrence |
| Template.ReplaceKeyIsolated | main.js:52-56 | a single free occurrence in `pre{key}post` becomes `pre value post` |
| Template.SubstituteWithoutPlaceholders | main.js:45-58 | a text holding no placeholder of any supplied valid key is left verbatim by the whole reduce |
| Template.SubstituteSplit | main.js:54-58 | the reduce over `a + b` is the reduce over `a` followed by that over `b` |
| Template.CollapseEscapeRoundTrip | main.js:59 | collapsing a text whose braces were doubled gives back the text |
| Template.CollapseWithoutBraces | main.js:59 | a brace-free text is unchanged by the collapse |
| Template.CollapseSuffix | main.js:59 | a brace-free text followed by a doubled brace keeps one brace |
| Template.FormatBraceFreeTemplate | main.js:44-60 | a template without braces comes out unchanged |
| Template.FormatSinglePlaceholder | main.js:44-60 | `pre{key}post` with brace-free fixed parts and value formats to `pre value post`, whatever other keys come before |
| Template.AdjacentRepeatNotReplaced | main.js:52 | `{a}{a}` formats to `v{a}` because the first match consumes the second placeholder's `{` |
| Template.DoubledBracesEscapePlaceholder | main.js:59 | `{{weight}}` formats to the literal `{weight}` |
| NodePath.Extname | main.js:184 | the extension is empty or starts with its only dot and holds no slash, and is shorter than the last segment |
| NodePath.Basename | main.js:187 | the base name holds no slash |
| NodePath.ExtnameEmptyIff | main.js:184-186 | the extension is empty exactly when no dot follows the first character of the last segment, or the segment is `..` |
| NodePath.BasenameExtnameSplit | main.js:184-187 | for a non-empty extension the base name is non-empty and base name + extension is the last segment |
| NodePath.PartsFromPath | main.js:184-187 | both results consist of characters of the path |
| NodePath.NamedFile | main.js:184-187 | `dir/name.x` has extension `.x` and base name `name` |
| CssTransform.DropLeadingDot | main.js:194 | `ext.replace(/^\./, '')` removes exactly one leading dot |
| CssTransform.EntryFor | main.js:197-202 | an entry downloads the token's URL, replaces the token's whole text, and its output text is `url('<path><name>')` |
| CssTransform.CollectUrls | main.js:181-203 | the inner loop fails exactly when a token has no pathname; otherwise it pairs each kept token, in order, with consecutive counter values |
| CssTransform.CollectBlocks | main.js:174-204 | the outer loop fails exactly when some block lacks a family or weight or a token lacks a pathname; otherwise it counts all kept tokens of all blocks in document order |
| CssTransform.TransformCss | main.js:168-207 | succeeds exactly on such well-formed parses, returns the stylesheet unchanged and one entry per kept token in document order, the k-th built with `i = k` (counting from 1) |
| CssTransform.NoBlocksNoFonts | main.js:168-207 | a stylesheet without blocks yields no entries |
| CssTransform.CounterTemplateName | main.js:188-196 | under a template `pre{i}post` the file name is the counter value between the fixed parts |
| CssTransform.CounterNamesDistinct | main.js:188-196 | under such a template different counter values give different file names |
| CssTransform.TransformCssCounterNamesUnique | main.js:172-202 | all entries emitted under such a template have pairwise different file names |
| CssTransform.CounterEntriesDistinct | main.js:188-202 | entries built with consecutive counter values under such a template have pairwise different file names |
| CssTransform.NormalizeFonts | main.js:213-225 | same length; each download URL is resolved against the stylesheet URL, every other field is unchanged |
| Rewriter.Rewrite | main.js:249-275 | no contract; described by RewriteAppend, RewriteWithoutOccurrences and RewriteInPlace |
| Rewriter.RewriteAppend | main.js:249-251 | the chained rewrite over `a + b` is the rewrite over `a` followed by that over `b` |
| Rewriter.RewriteWithoutOccurrences | main.js:275 | pairs whose input text does not occur leave the stylesheet unchanged |
| Rewriter.RewriteInPlace | main.js:275 | when each token is first found in its own slot at its turn, every replacement lands in that slot and the text between slots, even text equal to a later token, is untouched |
| Persistence.Mime | main.js:253-268 | the mime type is never empty: the content type, or `font/woff2` when it is missing or empty |
| Persistence.SaveFonts | main.js:249-303 | the font loop creates no directory, writes nothing when simulating or in base64 mode, removes nothing, overwrites nothing unless overwriting, and writes only font targets |
| Persistence.SaveFontsOutcome | main.js:249-303 | base64 mode fails exactly when some font is not served; path mode cannot fail when simulating or when all fonts are served; on success the stylesheet is the list-order rewrite with the path (or data URL) replacements |
| Persistence.SaveFiles | main.js:232-321 | no contract; described by SimulateChangesNothing, OutputDirectory, StylesheetWritten, NoOverwriteKeepsFiles, AllPresentNoError, Base64Outcome and the other Persistence lemmas |
| Persistence.SimulateChangesNothing | main.js:236-247 | with `simulate` the file system is unchanged, and in path mode no error can occur |
| Persistence.NoOverwriteKeepsFiles | main.js:276-290 | without overwriting an existing file, font or stylesheet, keeps its content |
| Persistence.AllPresentNoError | main.js:276-290 | in path mode without overwriting and with every target present, nothing fails and no file changes, while the stylesheet is still rewritten |
| Persistence.PathModeStylesheet | main.js:273-275 | in path mode the saved stylesheet is the rewrite with every entry's `url('<path><name>')`, whether or not files were written |
| Persistence.StylesheetWritten | main.js:304-319 | after a successful font loop, not simulating, with a free target or overwriting, the stylesheet file holds the rewritten text |
| Persistence.OutputDirectory | main.js:236-247 | the output directory is created exactly when not simulating |
| Persistence.Base64WritesOnlyStylesheet | main.js:291-300 | base64 mode changes no file other than the stylesheet |
| Persistence.Base64Outcome | main.js:265-300 | base64 mode fails exactly when some font is not served; otherwise every token is replaced by its data URL in list order |
| Persistence.DistinctTargetsStored | main.js:274-282 | a real path-mode run with distinct free targets stores every font's downloaded body under its name |
| Persistence.NotTargetUnchanged | main.js:274-279 | a file no entry targets keeps its content |
| GoogleUrl.KeepChars | main.js:386 | the result holds only characters of the class, drawn from the input, and the input is unchanged when all its characters qualify; order and repeats are in KeepCharsAppend and KeepCharsOne |
| GoogleUrl.KeepCharsAppend | main.js:386 | the character filter distributes over concatenation, so kept characters keep their order and every kept occurrence stays |
| GoogleUrl.KeepCharsOne | main.js:386 | a single character is kept exactly when it is in the class |
| GoogleUrl.SanitizeFamily | main.js:383-386 | a sanitized name holds only characters of `[a-z0-9+-_]` read with `+-_` as a range; which characters survive, and the folding of whitespace runs, are in SanitizeSpacedWords |
| GoogleUrl.SanitizeFamilyIdempotent | main.js:383-386 | sanitizing a sanitized name changes nothing |
| GoogleUrl.SanitizeSpacedWords | main.js:383-386 | two space-free words separated by a whitespace run of any length sanitize to the first word's admitted characters, one `+`, and the second word's admitted characters |
| GoogleUrl.ColonSurvivesSanitizing | main.js:386 | because of the range, `a:b` survives sanitizing unchanged |
| GoogleUrl.KeepWeights | main.js:389 | keeps exactly the weight texts that match `^\d{3}i?$`; order and repeats are in KeepWeightsAppend and KeepWeightsOne |
| GoogleUrl.KeepWeightsAppend | main.js:389 | the weight filter distributes over concatenation: order and repeats are kept |
| GoogleUrl.KeepWeightsOne | main.js:389 | a single text is kept exactly when it matches `^\d{3}i?$` |
| GoogleUrl.KeepWeightsAll | main.js:389 | a list made only of weights passes unchanged |
| GoogleUrl.ParseWeights | main.js:387-389 | fails exactly on `undefined`/`null`; every weight kept matches `^\d{3}i?$` |
| GoogleUrl.ParseWeightsKeeps | main.js:387-389 | the kept weights are exactly the trimmed texts of the items of `arrayFrom(weights, ',')` that match `^\d{3}i?$`; order and repeats are in ParseWeightsWritten, ParseWeightsAppend and ParseWeightsOne |
| GoogleUrl.ParseWeightsWritten | main.js:387-389 | weights written as a comma-separated string (`'700,400'`, `'400,400'`) parse back as written, in order and with repeats |
| GoogleUrl.ParseWeightsAppend | main.js:387-389 | for an array the parse distributes over concatenation, keeping order and repeats |
| GoogleUrl.ParseWeightsOne | main.js:387-389 | a one-item array gives the item's trimmed text exactly when it matches `^\d{3}i?$` |
| GoogleUrl.ToFamily | main.js:381-390 | the map callback for one entry fails exactly when its weights value is `undefined`/`null` |
| GoogleUrl.FamilyList | main.js:379-391 | fails exactly when some weights value is `undefined`/`null`; otherwise one family per object entry |
| GoogleUrl.FamilyListPointwise | main.js:379-391 | family `k` is the callback's result for entry `k` |
| GoogleUrl.FamilyListMaps | main.js:379-391 | family `k` carries the sanitized name of entry `k` and the parsed weights of that entry |
| GoogleUrl.Dedup | main.js:398-399 | the `indexOf` filter keeps the same set of values and never lengthens the list |
| GoogleUrl.DedupFirstOccurrences | main.js:398-399 | deduplication equals the front-to-back `indexOf(v) === i` filter: position `i` is kept exactly when its value does not occur before `i`, so first occurrences stay in their original order |
| GoogleUrl.DedupDistinct | main.js:398-399 | the result has no repeats, and a list without repeats is unchanged |
| GoogleUrl.DedupAppend | main.js:398-399 | deduplicating, appending and deduplicating again is deduplicating the whole concatenation |
| GoogleUrl.MergeAll | main.js:392-405 | no contract; described by MergeAllGathers, MergeTwoEntries, MergeAllWellFormed and MergedNamesFromList |
| GoogleUrl.MergeAllGathers | main.js:392-405 | the merged list names each sanitized family once, in order of first appearance, with the weights of its only entry, or the deduplicated weights of all its entries in order |
| GoogleUrl.MergeTwoEntries | main.js:392-405 | two entries for one family merge into one holding the deduplicated concatenation of their weights |
| GoogleUrl.SpacedAndPlussedAlike | main.js:383-386 | a name written with spaces and the same name written with `+` (as `'Alegreya Sans SC'` and `'Alegreya+Sans+SC'` in test.js) sanitize to the same family |
| GoogleUrl.WeightsJoined | main.js:409 | joined weights consist of digits, `i` and commas, are unchanged by `trim`, and are empty exactly when there are no weights |
| GoogleUrl.RenderFamily | main.js:406-412 | no contract; described by RenderFamilyCases and NoBarInFamily |
| GoogleUrl.RenderFamilies | main.js:406-414 | no contract; described by RenderFamiliesSplit |
| GoogleUrl.RenderFamilyCases | main.js:406-412 | a family renders as `name:w1,w2`, as `name` without weights, or as the bare weights for an empty name |
| GoogleUrl.NoBarInFamily | main.js:406-412 | a rendered family holds no `\|` or `&`, and a `?` only when its name does |
| GoogleUrl.RenderFamiliesSplit | main.js:406-414 | splitting the families parameter on `\|` gives back the rendered families, one per merged entry |
| GoogleUrl.MergeAllWellFormed | main.js:392-405 | merging keeps names sanitized and weights valid |
| GoogleUrl.MergedNamesFromList | main.js:392-405 | every merged name is the name of some entry |
| GoogleUrl.CleanSubsets | main.js:415-417 | fails exactly when some element is not a string |
| GoogleUrl.CleanSubsetsKeeps | main.js:415-417 | the kept subsets are exactly the trimmed, lower-cased elements holding a lower-case letter or hyphen anywhere; order and repeats are in CleanSubsetsAppend and CleanSubsetsOne |
| GoogleUrl.CleanSubsetsAppend | main.js:415-417 | on concatenated lists the subset clean-up fails where either part fails, and otherwise keeps both parts' subsets in order, repeats included |
| GoogleUrl.CleanSubsetsOne | main.js:415-417 | one element: a non-string throws; a string is trimmed, lower-cased and kept exactly when it holds a lower-case letter or hyphen |
| GoogleUrl.ParseSubsets | main.js:415-418 | fails exactly on `null` or an array with a non-string element; a missing argument means no subsets |
| GoogleUrl.ConstructUrl | main.js:376-422 | `constructUrl` throws exactly when some weights value is `undefined`/`null`, subsets is `null`, or a subset element is not a string |
| GoogleUrl.CutKeyAt | main.js:421 | `.replace(/subset=$/, '')` cuts the key exactly when no subsets follow it |
| GoogleUrl.CollapseEmptyFamilies | main.js:419-421 | with no families `?family=&` becomes `?`, and the dangling key is cut when no subsets follow |
| GoogleUrl.KeepFamilies | main.js:419-421 | with a non-empty family list free of `?` and `&` the collapse pattern does not occur, and only the dangling key can be cut |
| GoogleUrl.FinishUrlShapeAt | main.js:419-421 | for names free of `?` and `&` and subsets free of `?` and `=`, the fixed-up URL has the shape `api?` + `family=F&` (if any families) + `subset=S` (if any subsets) |
| GoogleUrl.FinishUrlWithoutFamilies | main.js:419-421 | without families the URL is `css?subset=S`, or `css?` without subsets |
| GoogleUrl.FinishUrlWithFamilies | main.js:419-421 | with families the URL is `css?family=F&subset=S`, or `css?family=F&` without subsets |
| GoogleUrl.ConstructUrlShape | main.js:376-422 | for names and subsets free of `?` (and subsets free of `=`), the URL is `css?` followed by `family=F&` when a family survives and `subset=S` when a subset survives |
| GoogleUrl.EmptyRequest | main.js:376-422 | no families and no subsets give the bare `css?` |
| Pipeline.ReplaceAllIgnoreCase | main.js:127-131 | a case-insensitive global replace leaves a text without any match unchanged |
| Pipeline.ReplaceAtFirstMatch | main.js:127-131 | the first match, in any letter case, is replaced: text before it is copied, the match becomes the replacement, and the scan resumes right after the match |
| Pipeline.DecodeEntities | main.js:127-131 | no contract; described by DecodeEscapedAmpersand and DoubleEscapeDecodedTwice |
| Pipeline.RepairUrl | main.js:125-135 | the repaired URL holds no whitespace |
| Pipeline.RepairUrlKeepsSpaceless | main.js:125-135 | a URL that normalizes to text without whitespace is returned exactly as normalized |
| Pipeline.DecodeEscapedAmpersand | main.js:127 | `a&amp;b`, with the entity in any letter case (`&AMP;`, `&Amp;`, ...) and no other `&` or `;`, decodes to `a&b`, as for the `<link>`-style URL in test.js |
| Pipeline.DoubleEscapeDecodedTwice | main.js:127-128 | the passes run in sequence, so `&amp;lt;` decodes all the way to `<` |
| Pipeline.RepairInput | main.js:358-369 | non-array non-string input is a TypeError; a string is repaired; an array succeeds exactly when `constructUrl` on its first two elements does, and then yields that URL; the options are the corrected merge (see Findings) of the stored configuration and the call's options, so they are always complete, which the merge as written does not guarantee |
| Pipeline.StylesheetText | main.js:438 | a status of 400 or more gives the empty stylesheet with no blocks; otherwise the body as served |
| Pipeline.DownloadFetches | main.js:429-452 | once the input is repaired, `download` is the fetch with the settings of the merged options |
| Pipeline.Download | main.js:429-453 | no contract; described by DownloadFetches, BadInputRejected, ErrorStatusWritesNoFonts, SimulatedDownloadWritesNothing and DownloadedStylesheet |
| Pipeline.Fetch | main.js:432-452 | no contract; described by FetchErrorStatus, FetchSimulated and FetchedStylesheet |
| Pipeline.BadInputRejected | main.js:359-361 | `download` of non-array non-string input fails with the TypeError before anything is fetched or written |
| Pipeline.ErrorStatusWritesNoFonts | main.js:435-447 | a stylesheet answered with an error status yields an empty saved stylesheet, no error, and no change to any file but the stylesheet |
| Pipeline.FetchErrorStatus | main.js:435-447 | the same for the fetch step alone, whatever the settings |
| Pipeline.NoFontsSaved | main.js:232-321 | saving an empty font list changes no file but the stylesheet |
| Pipeline.SimulatedDownloadWritesNothing | main.js:429-452 | a simulated download leaves the file system as it was |
| Pipeline.FetchSimulated | main.js:432-449 | a simulated fetch leaves the file system as it was |
| Pipeline.DownloadedStylesheet | main.js:429-452 | in path mode a completed download saves the served stylesheet with every kept token replaced, in document order, by its local `url(...)`; resolving the download URLs does not affect the text |
| Pipeline.FetchedStylesheet | main.js:432-449 | the same for the fetch step alone, under any path-mode settings |

## Left out

- HTTP (`downloadString`, `https.get`, response and stream events, the user agent and TLS switches) is not modelled. Stylesheet responses are a map from URL to status, body and parse. Font responses are a map from URL to content type and body. A URL missing from a map is a request error.
- The regular expressions that cut a stylesheet into `@font-face` blocks, families, weights and `url(...)` tokens are not modelled. `TransformCss` receives their result as `FaceBlock`s.
- `normalize-url`, `URL.parse`, `URL.resolve` and the base64 encoding of a body are foreign. They are function parameters or fields of the parse.
- `path.resolve(outputDir, name)` is the pair `FilePath(outputDir, name)`. Two spellings of one directory are different paths.
- Q promise sequencing is a sequential fold. `saveFiles` returns a promise that does not wait for the stylesheet write. The model folds that write into the saved state.
- `mkdirp` failures and failures of the file writes themselves are not modelled. `fs.existsSync` is membership in the map.
- A font download that fails after its write has started leaves a partial file in the original. The model leaves the file untouched.
- `console.log` output, `verbose` and timing are not modelled: they are observational only.
- `toLowerCase` and the case-insensitive entity match cover ASCII letters only.
- JavaScript numbers are integers. `String(n)` of a fraction is not modelled.
- Objects are their own enumerable entries. Inherited keys and `Array.from` on array-like objects with a `length` property are not modelled: `Array.from` yields nothing for them.
- cli.js (argument parsing) and test.js (a network script without assertions) are not part of this model.
- Template.Format: requires values free of `$` and keys that are not all digits. The source splices values into a regex replacement string and keys into a regex, where `$` patterns and `{n}` quantifiers would take effect; those cases are not modelled.
- CssTransform.TransformCss: requires the parsed comment, family, weight and pathnames to be free of `$`, because they reach `format`. A stylesheet carrying `$` there is not modelled.
- Pipeline.Download: requires every stylesheet's parse to be free of `$`, for the same reason.
- Pipeline.RepairInput: merges the options with the corrected `Config.MergeOptions`, not the merge as written. In the source a call option of the wrong type for `template`, `path`, `outputDir` or `cssFile` removes the option instead of falling back to the default (see Findings). The model does not follow that path.
- Pipeline.Download: composes the corrected merge through `RepairInput`. So it does not model what happens after a mistyped option is dropped. In the source a missing `template` makes `format` throw a TypeError when a token is kept, a missing `path` writes `url('undefined<name>')`, and a missing `outputDir` or `cssFile` makes `path.resolve` throw.
- GoogleUrl.ConstructUrlShape: states the URL shape only for names and subsets free of `?`, and subsets free of `=`. Both filters let these through, and then the `?family=&` and `subset=$` fix-ups can fire elsewhere. This is not characterised.
- GoogleUrl.FinishUrlWithFamilies: states the shape only for families free of `?` and `&` and subsets free of `?` and `=`, for the same reason.
- GoogleUrl.FinishUrlWithoutFamilies: states the shape only for subsets free of `=`, for the same reason.
- GoogleUrl.FinishUrlShapeAt: states the shape only for names free of `?` and `&` and subsets free of `?` and `=`, for the same reason.
- GoogleUrl.KeepFamilies: states the result only for an API prefix, family list and subsets free of `?`, for the same reason.

## Findings

| source | as written | input that shows it | evidently intended | confidence | as-written member | corrected member |
|---|---|---|---|---|---|---|
| main.js:364-367 | `filterConfig(Object.assign({}, DEFAULT_CONFIG, this.config, config))`: a value of the wrong type replaces the default and is then dropped, so the option disappears and `format` later receives `undefined` as its template | `download(url, {template: 5})` | a mistyped option falls back to the stored value or the default, as `getConfig` does | medium, not executed | Config.MergeOptionsAsWritten (shown by Config.MistypedOptionLosesDefault) | Config.MergeOptions (used by Pipeline.RepairInput) |
