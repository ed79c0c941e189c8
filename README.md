# lib-inject-css, modelled in Dafny

`libInjectCss` is a Vite plugin for library builds. Vite splits a library's CSS into
separate files, and the chunks that need those files do not import them. The plugin fixes
that: after bundling, it writes a reference to each stylesheet into every chunk that uses
one. The reference is one of two kinds:

- an `import '<specifier>';` for ES-module output, or `require('<specifier>');` otherwise
  (the default, `injectionType: 'IMPORT'`);
- a small self-invoking snippet that appends a `<link rel="stylesheet">` for
  `base + cssFileName` to the document head (`injectionType: 'APPEND_LINK'`).

Module references are spliced in at a single anchor: the start of the first top-level
node of the parse that is neither an import nor an expression statement (comments
included; 0 if there is none).
Link snippets are put at the very start. Before any of this, the `options` hook decides
once per build whether injection runs at all. The `config` hook makes
`hoistTransitiveImports` default to `false` on every output.

The project has six modules:

| file | module | what it holds |
|---|---|---|
| `wrappers.dfy` | `Wrappers` | `Option` |
| `anchor.dfy` | `Anchor` | the injection-point locator over the parser's top-level nodes |
| `specifiers.dfy` | `Specifiers` | the specifier normaliser: collapse runs of `\` and `/` to one `/`, add `./` unless the path starts with `.` |
| `eligibility.dfy` | `Eligibility` | the `options` checks as a reference function `Evaluate`, with JavaScript's `parseInt` for the bundler version |
| `injection.dfy` | `Injection` | the fragments, repeated splicing at one anchor, and the rewritten code of one chunk |
| `plugin.dfy` | `Plugin` | the plugin instance as a class, its hooks as methods, and the host objects they update in place (`OutputOptions`, `OutputFile`) |

The hooks `generateBundle` and `config` work by updating host objects. They are methods
over classes: an `array` of `OutputFile` for the bundle, and a sequence of
`OutputOptions` references for the outputs. Each method is proved against the value-level
definitions (`Plugin.HoistDefault`, and those in `Injection` and `Eligibility`) or, where it
only stores a value, states the stored value.

## Model

| member | source | states |
|---|---|---|
| Anchor.FirstIncluded | src/index.ts:122-127 | The index found has a non-excluded kind and every earlier node is excluded. The result is None exactly when every node is an import or expression statement. |
| Anchor.InjectionPoint | src/index.ts:127-129 | The offset is 0 when all nodes are excluded. Otherwise it is the start of the first node whose kind is not in `excludeTokens`. |
| Anchor.InjectionPointSeparates | src/index.ts:122-129 | For well-formed parser output: the anchor lies within the code, every node starting before it is excluded, and no non-excluded node starts before it. |
| Anchor.InjectionPointIgnoresLaterNodes | src/index.ts:122-127 | Nodes after the first non-excluded one do not move the anchor (`find` stops at the first match). |
| Specifiers.CollapseSeparators | src/index.ts:137-139 | The result is empty exactly when the input is. It starts with `/` when the input starts with a separator, and with the input's first character otherwise. |
| Specifiers.CollapseShape | src/index.ts:139 | After `replaceAll(/[\\/]+/g, '/')`: no `\` is left, no two `/` are adjacent, and the non-separator characters are unchanged and in order. |
| Specifiers.CollapseFixedPoint | src/index.ts:139 | A string with no `\` and no `//` is left unchanged. |
| Specifiers.CollapseIdempotent | src/index.ts:139 | Collapsing twice gives the same result as collapsing once. |
| Specifiers.CollapseRun | src/index.ts:139 | A non-empty run of separators alone becomes exactly `/`. |
| Specifiers.CollapseCons | src/index.ts:139 | Proof helper: the definition of the separator collapse unfolded once (a leading separator merges with the run the rest begins with; any other character is kept). |
| Specifiers.CollapseConcat | src/index.ts:139 | Collapsing distributes over a concatenation whose cut does not split a run of separators. |
| Specifiers.CollapseJoin | src/index.ts:139 | Any run of separators between two collapsed pieces (no `\`, no `//`) that neither end nor begin with a separator becomes a single `/`. |
| Specifiers.Specifier | src/index.ts:137-142 | The specifier is non-empty, starts with `.` and contains no `\`. It is the collapsed path itself when the path starts with `.`, and `./` followed by the collapsed path otherwise. |
| Specifiers.SpecifierNoDoubleSlash | src/index.ts:137-142 | The specifier has no `//` when the raw relative path does not begin with a separator. |
| Specifiers.SpecifierKeepsNames | src/index.ts:137-142 | The specifier keeps every non-separator character of the raw path, in order, with one extra leading `.` when `./` was added. |
| Specifiers.SpecifierIdempotent | src/index.ts:137-142 | For a raw path that does not begin with a separator, normalising the specifier again gives the same specifier. |
| Specifiers.LeadingSeparatorKeepsDoubleSlash | src/index.ts:140-142 | For every raw path whose first character is a separator, the `./` prefix produces a specifier that contains `//`. |
| Specifiers.LeadingBackslashExample | src/index.ts:137-142 | Example: `\x` gives `.//x`. |
| Specifiers.SpecifierOfPosixPath | src/index.ts:140-142 | A path already in POSIX form is returned unchanged when it starts with `.` (`../style.css`), and with `./` in front otherwise (`style.css`). |
| Specifiers.SpecifierOfWindowsPath | src/index.ts:137-142 | `..` followed by any non-empty run of `/` and `\` and then any name free of separators becomes `../name`. |
| Eligibility.PreserveModulesWarning | src/index.ts:11-16 | The warning is 132 characters longer than the option path and begins with ``When ` `` followed by the path. |
| Eligibility.ParseIntOfVersion | src/index.ts:89-90 | `parseInt` of a version string `<digits>` or `<digits>.<rest>` is the number the leading digits denote. |
| Eligibility.ParseInt | src/index.ts:90 | Definition: JavaScript's `parseInt` without a radix. Leading white space is skipped, an optional sign is read, `0x`/`0X` selects hexadecimal, and the longest run of digits is read; no digit gives None (`NaN`). |
| Eligibility.RollupMajorBelow4 | src/index.ts:89-90 | Definition: `parseInt(version) < 4`, false when the parse is `NaN`. |
| Eligibility.MajorBelow4OfVersion | src/index.ts:89-93 | For such a version string, the legacy check applies exactly when the major number is below 4. |
| Eligibility.UnparsableVersionIsNotBelow4 | src/index.ts:89-90 | A version with no decimal digit parses to NaN, and `NaN < 4` is false. |
| Eligibility.MessagesDistinct | src/index.ts:74-106 | The four messages differ from one another. |
| Eligibility.MessageIffCondition | src/index.ts:74-106 | Each message is printed if and only if its own check fires, whatever the other checks say. |
| Eligibility.Evaluate | src/index.ts:74-106 | Definition: skip is the disjunction of the three blocking checks; there is one message per check that fires, in check order. |
| Eligibility.SkipIffBlockingMessage | src/index.ts:74-106 | Injection is skipped if and only if some message other than the SSR warning is printed. |
| Eligibility.SsrNeverSkips | src/index.ts:100-106 | Changing only the SSR settings never changes the skip decision. |
| Eligibility.MessageCount | src/index.ts:72-106 | There is one message per check that fires, and no message appears twice. |
| Eligibility.LibraryBuildIsEligible | src/index.ts:74-98 | A library `build` with `preserveModules` never set to true is not skipped. |
| Injection.FragmentReferences | src/index.ts:144-149 | A link snippet installs `href = base + cssFileName` in every output format. A module reference names the specifier, and begins with `import` exactly when the format is `es`. The snippet text of `createStyleSheet` (src/index.ts:169-170) is `Injection.StyleSheet`, built from `LinkHead` and `LinkTail`. |
| Injection.ModuleReference | src/index.ts:147-149 | Definition: `import '<specifier>';` for the `es` format, `require('<specifier>');` for any other. |
| Injection.Fragment | src/index.ts:144-149 | Definition: the link snippet for `base + cssFileName` when the option is `'APPEND_LINK'`, the module reference otherwise. |
| Injection.StackedIsReversedConcat | src/index.ts:151-155 | Splicing each fragment at the same anchor leaves the fragments in the reverse of their splice order. |
| Injection.StackedLength | src/index.ts:151-155 | The spliced block is exactly as long as all the fragments together. |
| Injection.SpliceStep | src/index.ts:151-155 | One more iteration of the inner loop turns the code for the first k fragments into the code for the first k+1: the fragment is prepended in link mode, or inserted at the anchor. |
| Injection.ImportLayout | src/index.ts:154 | In module-reference mode the code before the anchor and the code after it are kept byte for byte. The fragments sit between them in reverse order, and the length grows by their total length. |
| Injection.AppendLinkLayout | src/index.ts:151-152 | In link mode the original code is kept whole at the end, preceded by the snippets in reverse order. |
| Injection.ChunkFragments | src/index.ts:136-149 | There is one fragment per stylesheet of the chunk. |
| Injection.InjectedCode | src/index.ts:151-155 | Definition: all fragments stacked at offset 0 when the option is `'APPEND_LINK'`, otherwise stacked between `code[..position]` and `code[position..]`. |
| Injection.RewrittenCode | src/index.ts:122-156 | Definition: `InjectedCode` of the chunk's fragments, at the anchor taken once from the parse of the original code. |
| Injection.NoStylesheetsNoChange | src/index.ts:135-156 | With no stylesheets the code comes out exactly as it went in. |
| Injection.RewriteKeepsLeadingStatements | src/index.ts:122-156 | In module-reference mode, for well-formed parser output: the anchor is inside the code and before every non-excluded node. The code before the anchor and the code after the injected block are the original code. |
| Injection.TwoFragmentsReversed | src/index.ts:136-156 | Two stylesheets `a`, `b` come out as `b` then `a`: at the anchor for module references, and at offset 0 for link snippets. |
| Injection.DistIgnoresAppendLink | dist/index.js:93-98 | With the documented value `'APPEND_LINK'`, the compiled build emits a module reference rather than a link snippet (so it differs from the fragment the source emits) and splices it at the anchor, whereas the source prepends at offset 0. |
| Injection.DistFragment | dist/index.js:93 | Definition: the compiled build's fragment, the `linkTag` snippet when the option is `"DOC"` and the module reference otherwise. |
| Injection.DistInjectedCode | dist/index.js:94-98 | Definition: the compiled build's placement, prepended when the option is `"DOC"` and spliced at the anchor otherwise. |
| Injection.DistDocLinks | dist/index.js:109-110 | Under `"DOC"` the compiled snippet (element variable `linkTag`) reads back `base + cssFileName` as its href. |
| Plugin.HoistDefault | src/index.ts:45-47 | Afterwards the option is a boolean. An explicit boolean is kept, and the only value ever supplied is `false`. |
| Plugin.HoistDefaultIdempotent | src/index.ts:39-48 | Applying the rule twice (an output listed twice) gives the same result as applying it once. |
| Plugin.InjectStyles | src/index.ts:135-156 | The inner loop's result is the original code with all of the chunk's fragments spliced in (`InjectedCode` of `ChunkFragments`), proved by a loop invariant over the fragments seen so far. |
| Plugin.LibInjectCss.constructor | src/index.ts:23-30 | `base` defaults to `/` and `injectionType` to `IMPORT`. Injection starts enabled and no configuration is known yet. |
| Plugin.LibInjectCss.Config | src/index.ts:38-48 | Every listed output gets `HoistDefault` of its old `hoistTransitiveImports`. Missing entries are ignored, and an output listed twice is handled correctly. |
| Plugin.LibInjectCss.ConfigResolved | src/index.ts:66-68 | The resolved configuration is stored for the later hooks. |
| Plugin.LibInjectCss.Options | src/index.ts:69-106 | The returned messages are `Evaluate(...).messages`. `skipInject` becomes its old value or `Evaluate(...).skip`: it is raised, never lowered. |
| Plugin.LibInjectCss.RewriteChunk | src/index.ts:122-163 | The chunk's code becomes `RewrittenCode` of its old code. Its map becomes a boundary map of the new code when source maps are on, and is otherwise kept. |
| Plugin.LibInjectCss.VisitEntry | src/index.ts:117-163 | An entry that is a chunk with stylesheets, while injection is on, is rewritten as above. Any other entry keeps its code and map. |
| Plugin.LibInjectCss.Rewrites | src/index.ts:115-120 | Definition: injection is on, and the entry is a chunk with at least one stylesheet. |
| Plugin.LibInjectCss.GenerateBundle | src/index.ts:114-165 | Every chunk with stylesheets is rewritten from its own original code and map, and every other entry is unchanged. When `skipInject` is set, no entry counts as rewritten, so the bundle is unchanged. |

## Left out

- The JavaScript parser (`@ast-grep/napi`) is not part of this model. Its output is a parameter, `Libraries.parse`: the kinds and start offsets of the root's children. Methods that rewrite code require it to be well-formed (starts in order, each within the code).
- Node's `path.relative` and `path.dirname` are parameters, `Libraries.relative` and `Libraries.dirname`. The normaliser's properties are stated for any raw relative path they might return.
- `magic-string` map generation is recorded only as `Boundary(code)`: "a high-resolution boundary map generated for this final code". Map contents are not modelled.
- Printing the messages through `console.log` and `picocolors` is not modelled. `Options` returns the messages instead.
- The `name`, `apply` and `enforce` fields, and the object the `config` hook returns (`cssCodeSplit: true`, `ssrEmitAssets: true`), are constants the host reads. They are not modelled.
- Eligibility.ParseInt: white space is the common JavaScript set (ASCII spaces and line breaks, no-break space, BOM, U+2028, U+2029). The rest of Unicode's space separators are not included.
- Plugin.LibInjectCss.Options, Plugin.LibInjectCss.RewriteChunk, Plugin.LibInjectCss.VisitEntry and Plugin.LibInjectCss.GenerateBundle require `resolvedConfig.Some?`. This is the host's guarantee that `configResolved` runs before `options` and `generateBundle`; the source would throw otherwise.
- Plugin.LibInjectCss.GenerateBundle requires the bundle's entries to be distinct objects. Rollup's output bundle maps each file name to its own chunk or asset object. If one object appeared under two names, the source would inject into it twice, which the model does not describe.
- Offsets are character indices of `seq<char>`. The parser's offset unit for non-ASCII text is not modelled.
- `viteMetadata` missing on a chunk is modelled as an empty `importedCss`, which the source also skips. `importedCss` is a sequence in the set's iteration order, so duplicates are not excluded by the type.
- Plugin.LibInjectCss.RewriteChunk: `chunk.map` is replaced only when `build.sourcemap` is truthy. A sourcemap value of `'inline'` or `'hidden'` counts as on, like `true`.
- The fragments come out in the reverse of the stylesheets' iteration order: every fragment is spliced at the same anchor, so later ones land in front (src/index.ts:151-155). The model follows the code (Injection.StackedIsReversedConcat, Injection.TwoFragmentsReversed).
- The normaliser guarantees "no doubled slash", and idempotence, only when the raw relative path does not begin with a separator (Specifiers.LeadingSeparatorKeepsDoubleSlash; `/x` gives `.//x`, which normalises again to `./x`). `path.relative` does not return such paths, so this is not listed as a finding.

## Findings

| source | as written | input that shows it | evidently intended | confidence | as-written member | corrected member |
|---|---|---|---|---|---|---|
| dist/index.js:93-98 (also dist/index.cjs:127-132) | the compiled build selects the link snippet, and prepends it, only when `injectionType === "DOC"` | `libInjectCss({ injectionType: 'APPEND_LINK' })` on a chunk with one stylesheet: the published build emits `import './style.css';` or `require('./style.css');` instead of the `<link>` snippet | `'APPEND_LINK'`, the documented value (src/index.ts:145 and :151, dist/index.d.ts:10), selects the link snippet | high; not executed | Injection.DistIgnoresAppendLink | Injection.FragmentReferences |
