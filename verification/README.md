# semi-scss-compile, modelled in Dafny

`semi-scss-compile` builds the single stylesheet of the Semi design system. It has two parts.

`CompileScss` (packages/semi-scss-compile/index.ts) does the compiling:
- it lists the component folders that have an entry stylesheet;
- it plans which component and theme files go into the build;
- it rewrites each component file that sass imports from `../semi-ui/`: the text is split at every `@import './variables.scss'` anchor, and an extra `@import` line is spliced in before the last non-empty fragment (after the last anchor, or before it when that anchor ends the file);
- it runs sass twice, once expanded and once compressed.

`generateScssMap` (packages/semi-scss-compile/generateSCSSMap.ts) builds two catalogs of stylesheet text:
- one per component directory;
- one for a fixed whitelist of seven theme files.

The model works over a filesystem snapshot instead of the disk (`FileSystem.Snapshot`). A path maps to a file with its text or to a directory with its listing, in listing order. Reads that throw become `Err` results.

The modules:
- `Sequences`: filtering and joining, and the string helpers (`startsWith`, `endsWith`, the first-occurrence split, lodash's dotted path).
- `FileSystem`: the snapshot and `path.join`.
- `Options`: the constructor options. The two outer bindings the planner reads, `semiUIPath` and `absolutePath`, are explicit fields.
- `ImportRewriter`: `rewriteFile`. The regular expression is modelled literally, including its unescaped dots. `String.prototype.split` with the capturing group is modelled as the scan the language standard describes.
- `Planner`: `getScssFolderMap` and `getScssFilePathPreparingForCompiling`.
- `Orchestrator`: the importer, the per-pass options of `sassRender`, and how `compile` combines the passes.
- `ScssMap`: the three functions of generateSCSSMap.ts. The two catalogs are filled step by step, as in the source.

## Model

| member | source | states |
|---|---|---|
| ImportRewriter.AnchorForms | packages/semi-scss-compile/index.ts:135 | Each dot of the pattern matches any character but a line terminator. Either quote is accepted, with or without `;`. So `@import 'x/variables-scss'` is an anchor too. |
| ImportRewriter.AnchorRejects | packages/semi-scss-compile/index.ts:135 | Conversely, no match starts at a line terminator in either dot position, at an opening character that is not a quote, or where the closing quote differs from the opening one. |
| ImportRewriter.SplitFromConcat | packages/semi-scss-compile/index.ts:136 | Joining the pieces of the capturing split gives back the text exactly. |
| ImportRewriter.SplitFromAlternates | packages/semi-scss-compile/index.ts:135-136 | The split has odd length. Every odd position holds one whole match, because the capturing group keeps the anchor. |
| ImportRewriter.SplitFromLastAnchorFree | packages/semi-scss-compile/index.ts:136 | The last piece of the split contains no match. |
| ImportRewriter.SplitJoinRoundTrip | packages/semi-scss-compile/index.ts:135-139 | Dropping the empty fragments and joining the rest gives back the original text. |
| ImportRewriter.InsertionPoint | packages/semi-scss-compile/index.ts:138 | The insertion offset lies within the text, and the text from it on is exactly the last fragment. |
| ImportRewriter.RewriteFile | packages/semi-scss-compile/index.ts:129-145 | A missing file gives the readFileSync error. With no extra import configured, the text comes back unchanged. Otherwise the result is the text with the import line inserted before the last fragment. |
| ImportRewriter.RewriteInsertsOnce | packages/semi-scss-compile/index.ts:133-139 | The result is the fragments before the last, then `\n@import "<extra>";`, then the last fragment. It is longer by exactly the import line. Cutting that line out at the insertion point gives back the input. |
| ImportRewriter.FragmentsOfAnchored | packages/semi-scss-compile/index.ts:136-137 | A text that holds a match and is not just that match leaves more than one fragment. |
| ImportRewriter.FragmentsOfAnchorFree | packages/semi-scss-compile/index.ts:136-137 | A text without a match leaves at most one fragment. |
| ImportRewriter.FragmentsOfWholeAnchor | packages/semi-scss-compile/index.ts:136-137 | A text that is exactly one match leaves one fragment: the match itself. |
| ImportRewriter.RewriteChangesIff | packages/semi-scss-compile/index.ts:130-144 | The rewrite changes the text exactly when three things hold: an extra import is set, the text contains a match, and the text is not that single match. In every other case the content is returned unchanged. |
| ImportRewriter.RewriteAtFinalGap | packages/semi-scss-compile/index.ts:138 | The text is before + last match + an anchor-free tail. The import goes right after that last match, or right before it when the file ends with it. Earlier anchors get nothing. |
| Planner.GetScssFolderMap | packages/semi-scss-compile/index.ts:37-59 | A failed readdir is re-thrown. Otherwise the result is exactly the listed names N for which `COMPONENT_SCSS_PATH/N/N.scss` is a file, in listing order. |
| Planner.FoldersWithScssStep | packages/semi-scss-compile/index.ts:42-52 | One more listed name adds itself to the folder list exactly when its entry stylesheet is a file. |
| Planner.OutPutScssSibling | packages/semi-scss-compile/index.ts:64 | For `<dir>semi.scss<rest>`, where `<dir>` holds no `semi.scss`, the theme directory is `<dir>scss`. |
| Planner.OutPutScssWithoutEntryName | packages/semi-scss-compile/index.ts:64 | A path without `semi.scss` just gets `scss` appended. |
| Planner.PushComponents | packages/semi-scss-compile/index.ts:105-110 | The pushes produce one `${ui}/${N}${N}.scss` per kept folder, in order, then the iconButton and textarea extras. |
| Planner.GetScssFilePathPreparingForCompiling | packages/semi-scss-compile/index.ts:61-121 | The plan fails exactly when the component directory cannot be listed or a theme path is missing, since statSync throws. Otherwise the components are the existing candidates, in order, and the theme is the mode's full map. Every planned path exists. |
| Planner.FolderPlanPathsDistinct | packages/semi-scss-compile/index.ts:106-110 | A folder's planned path is never one of the two extras, and distinct folders get distinct paths. |
| Planner.PlannedComponentsDistinct | packages/semi-scss-compile/index.ts:105-113 | When the listing has no repeats and only plain names, the component plan has no duplicates. |
| Planner.OneButtonTreeFolders | packages/semi-scss-compile/index.ts:42-48 | For a tree holding `ui/button/button.scss`, the folder filter keeps `button`. |
| Planner.FolderPlanPathQuirk | packages/semi-scss-compile/index.ts:106-113 | As written, that tree plans `ui/buttonbutton.scss`. The existence filter then leaves no component at all. |
| Planner.IntendedPlanKeepsFoundFolders | packages/semi-scss-compile/index.ts:105-113 | With the separator restored, the plan starts with the entry stylesheet of every folder found, in order. |
| Planner.RelativeThemeRejectsWithoutDotScssFont | packages/semi-scss-compile/index.ts:85-118 | As written, relative mode rejects whenever `.scss/_font.scss` (line 85) is missing, because statSync throws for it (line 115). |
| Planner.IntendedPlanFailsOnlyOnListing | packages/semi-scss-compile/index.ts:112-118 | The corrected plan fails only on an unlistable component directory. Its theme holds exactly the intended entries that exist. |
| Orchestrator.Importer | packages/semi-scss-compile/index.ts:152-159 | A URL under `../semi-ui/` is read and rewritten; a read that fails is an error. Any other URL is handed back as a file reference. |
| Orchestrator.RenderConfig | packages/semi-scss-compile/index.ts:147-164 | Both passes render the merged entry file. The normal pass is expanded and writes to OUTPUT_SEMI_CSS_PATH. The compressed pass writes to OUTPUT_SEMI_CSS_MIN_PATH. |
| Orchestrator.SassRender | packages/semi-scss-compile/index.ts:166-183 | A pass only resolves true or rejects false. It resolves exactly when sass renders and the write succeeds. It then writes its CSS to its one target, and writes nothing on rejection. |
| Orchestrator.Compile | packages/semi-scss-compile/index.ts:186-194 | compile never resolves false. It resolves true exactly when the normal pass succeeds and, if a min path is set, the min pass succeeds. The min pass starts only after a normal success. The files written are exactly the outputs of the passes that succeeded: the normal CSS, then the min CSS over it. |
| Orchestrator.CompileCatchingRejections | packages/semi-scss-compile/index.ts:188-193 | The corrected compile gives the AND of the two pass results. It attempts the min pass whenever its path is set. |
| ScssMap.SetPath | packages/semi-scss-compile/generateSCSSMap.ts:18 | `lodash.set` with a two-element path adds the outer key and writes one inner key. Every other entry is unchanged. |
| ScssMap.GenerateComponentsScssMap | packages/semi-scss-compile/generateSCSSMap.ts:7-25 | The call throws exactly when the foundation directory cannot be listed or a listed component has an unreadable `.scss` child. Otherwise the catalog has a key for exactly the listed directories with at least one `.scss` child. Under each key are exactly those children, each mapped to its text. |
| ScssMap.AddComponent | packages/semi-scss-compile/generateSCSSMap.ts:15-19 | The first unreadable `.scss` child, in listing order, ends the call with that child's read error: every child before it is readable. Otherwise only the component's entry changes, and it holds every `.scss` child with its text. |
| ScssMap.ComponentCatalogUnique | packages/semi-scss-compile/generateSCSSMap.ts:7-25 | The component catalog is determined by the snapshot alone. |
| ScssMap.SplitAtDotsStemExt | packages/semi-scss-compile/generateSCSSMap.ts:35 | lodash parses a dotted name `stem.ext` as the two-step path [stem, ext]. |
| ScssMap.ThemeDottedPaths | packages/semi-scss-compile/generateSCSSMap.ts:28-35 | Each whitelisted name `X.scss` is stored at [X, "scss"]. |
| ScssMap.ThemeStemsDistinct | packages/semi-scss-compile/generateSCSSMap.ts:28 | The seven stems are distinct, so no theme file overwrites another's entry. |
| ScssMap.GenerateThemeScssMap | packages/semi-scss-compile/generateSCSSMap.ts:27-39 | The call throws exactly when a probed name's file under the theme root is not readable. Otherwise there is a key per whitelisted name whose `<themePath>/scss/<name>` exists, holding `{scss: <text of <themePath>/<name>>}`. |
| ScssMap.StoreWhitelist | packages/semi-scss-compile/generateSCSSMap.ts:30-37 | The same as GenerateThemeScssMap, for any whitelist whose names lodash parses as distinct [stem, "scss"] paths. |
| ScssMap.GenerateScssMap | packages/semi-scss-compile/generateSCSSMap.ts:41-46 | The result is exactly the two catalogs. It fails exactly when either catalog fails. |

## Left out

- The sass compiler is not modelled. A pass's outcome (CSS or an error with column and message) is an input, and so is whether writing the CSS succeeds.
- Promises are modelled as straight-line methods, with a rejection as a `Rejected` result. Console logging is left out.
- `generateSemiScss` is not part of this model. compile is taken to pass it.
- `preparingTempDirForCompiling` is left out. It depends on the clock and the temporary directory, and nothing uses its result.
- Paths are the exact strings the code builds; there is no `.` or `..` normalisation. `path.join` inserts one `/` unless the left part is empty or already ends in one.
- Strings are sequences of characters. The UTF-16 code units JavaScript works on, and file encodings, are not modelled.
- Catalog and theme-map key order (JavaScript insertion order) is not modelled; catalogs are maps. lodash's special keys (`__proto__`, `constructor`) and bracket syntax in paths are not modelled.
- The unused fields of the `CompileScssOptions` interface (index.ts:7-13) and the empty `defaultOptions` are left out.
- Planner.GetScssFolderMap: like the source, it lists its `filepath` argument but probes under `COMPONENT_SCSS_PATH`. The planner passes the same path for both.
- ImportRewriter.RewriteFile: the `try`/`catch` around the split is left out. `split` and `splice` cannot throw on a string.
- Orchestrator.SassRender: fs-extra's `outputFile` with an unset path is taken to reject, as a write that fails.
- The theme plan's table is kept as an ordered list of (name, path) entries. Its literal layout is stated by its definitions (`RelativeTheme`, `AbsoluteTheme`) and not by separate lemmas.
- Options.CompileScssOptions: the assignment `semiUIPath = absolutePath` (index.ts:93) writes a binding outside the method, so in the source it outlives the call and reaches later calls. The model recomputes the UI root from the options on every call (`Planner.UIPath`), and does not capture that effect on later calls.
- The model follows the code as written:
  - a missing theme path makes statSync throw, so the plan rejects and the entry is never deleted (index.ts:114-118);
  - a failed normal pass rejects `compile`, so the min pass is not attempted (index.ts:188-191);
  - a theme file `X.scss` is stored through lodash's dotted path, at [X, "scss"] (generateSCSSMap.ts:35);
  - the import goes before the last non-empty fragment, so when the last anchor ends the file it lands before that anchor (index.ts:138).

## Findings

| source | as written | input that shows it | evidently intended | confidence | as-written member | corrected member |
|---|---|---|---|---|---|---|
| packages/semi-scss-compile/index.ts:106 | `${semiUIPath}/${scssFile}${scssFile}.scss` has no `/` between folder and file | a tree with `ui/button/button.scss`: the plan asks for `ui/buttonbutton.scss`, so the existence filter drops every component | `${semiUIPath}/${scssFile}/${scssFile}.scss` | high, not executed | Planner.FolderPlanPathQuirk | Planner.IntendedPlanKeepsFoundFolders |
| packages/semi-scss-compile/index.ts:85 | relative mode maps `_font.scss` to `.scss/_font.scss` | every `./scss/<name>` present but no `.scss/_font.scss`: the plan rejects | `./scss/_font.scss`, like the six other entries | high, not executed | Planner.RelativeThemeRejectsWithoutDotScssFont | Planner.IntendedPlanFailsOnlyOnListing |
| packages/semi-scss-compile/index.ts:114-118 | `statSync` throws on a missing path, so the `delete` branch never runs and a missing theme file rejects the plan | any theme path that does not exist | drop missing theme entries, as the `//filter non-exist file` comment and the `delete` say | medium, not executed | Planner.GetScssFilePathPreparingForCompiling | Planner.IntendedPlanFailsOnlyOnListing |
| packages/semi-scss-compile/index.ts:171-193 | a failed pass rejects, so `await` throws: compile rejects and never resolves false, and the min pass is skipped | a sass error in the normal pass | compile resolves `compileResult && compileMinResult` with a failed pass as false | medium, not executed | Orchestrator.Compile | Orchestrator.CompileCatchingRejections |
