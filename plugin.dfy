/** The plugin instance returned by `libInjectCss` (src/index.ts): its two construction
    options, the per-build state the hooks share (`skipInject` and the resolved
    configuration), and the hooks `config`, `configResolved`, `options` and
    `generateBundle`, over the host objects they update in place. */
module Plugin {
  import opened Wrappers
  import opened Anchor
  import opened Eligibility
  import opened Injection

  /** The `hoistTransitiveImports` rule of the `config` hook. None stands for any value
      that is not a boolean (absent included). Afterwards the option is always a
      boolean, an explicit boolean is never overridden, and the only value the rule
      ever supplies is `false`. */
  function HoistDefault(current: Option<bool>): (updated: Option<bool>)
    ensures updated.Some?
    ensures current.Some? ==> updated == current
    ensures updated != current ==> updated == Some(false)
  {
    if current.Some? then current else Some(false)
  }

  /** Applying the rule to its own result changes nothing, so an output listed twice is
      treated as if listed once. */
  lemma HoistDefaultIdempotent(current: Option<bool>)
    ensures HoistDefault(HoistDefault(current)) == HoistDefault(current)
  {
  }

  /** One entry of the user's `build.rollupOptions.output`, as far as the plugin
      touches it. */
  class OutputOptions {
    var hoistTransitiveImports: Option<bool>

    constructor (hoistTransitiveImports: Option<bool>)
      ensures this.hoistTransitiveImports == hoistTransitiveImports
    {
      this.hoistTransitiveImports := hoistTransitiveImports;
    }
  }

  datatype EntryType = Chunk | Asset

  /** A chunk's source map: one that came with the bundle, or the high-resolution
      boundary map generated for the given final code. */
  datatype SourceMap = Upstream(id: nat) | Boundary(generatedFor: string)

  /** One value of the output bundle. `importedCss` is the chunk's
      `viteMetadata.importedCss` in iteration order (empty when there is no metadata). */
  class OutputFile {
    const entryType: EntryType
    const fileName: string
    const importedCss: seq<string>
    var code: string
    var sourceMap: Option<SourceMap>

    constructor (entryType: EntryType, fileName: string, importedCss: seq<string>, code: string,
                 sourceMap: Option<SourceMap>)
      ensures this.entryType == entryType && this.fileName == fileName
      ensures this.importedCss == importedCss && this.code == code && this.sourceMap == sourceMap
    {
      this.entryType := entryType;
      this.fileName := fileName;
      this.importedCss := importedCss;
      this.code := code;
      this.sourceMap := sourceMap;
    }
  }

  /** The inner loop of generateBundle: one fragment per stylesheet, each spliced into
      the running code at the same `position` (or prepended, for link snippets). */
  method InjectStyles(injectionType: string, base: string, format: string, libraries: Libraries,
                      fileName: string, original: string, position: nat, importedCss: seq<string>)
    returns (code: string)
    requires position <= |original|
    ensures code == InjectedCode(injectionType, original, position,
                                 ChunkFragments(injectionType, base, format, libraries, fileName, importedCss))
  {
    ghost var fragments := ChunkFragments(injectionType, base, format, libraries, fileName, importedCss);
    code := original;
    assert fragments[..0] == [];
    for k := 0 to |importedCss|
      invariant code == InjectedCode(injectionType, original, position, fragments[..k])
    {
      var cssFileName := importedCss[k];
      var cssFilePath := Specifiers.Specifier(libraries.relative(libraries.dirname(fileName), cssFileName));
      var injection := Fragment(injectionType, base, format, cssFileName, cssFilePath);
      assert injection == fragments[k];
      assert fragments[..k + 1] == fragments[..k] + [injection];
      SpliceStep(injectionType, original, position, fragments[..k], injection);
      if IsAppendLink(injectionType) {
        code := injection + code;
      } else {
        code := code[..position] + injection + code[position..];
      }
    }
    assert fragments[..|importedCss|] == fragments;
  }

  /** The plugin instance and the state its hooks share. */
  class LibInjectCss {
    const base: string
    const injectionType: string
    var skipInject: bool
    var resolvedConfig: Option<ResolvedConfig>

    /** `libInjectCss({ base = '/', injectionType = 'IMPORT' } = {})` */
    constructor (base: Option<string>, injectionType: Option<string>)
      ensures this.base == base.GetOr("/")
      ensures this.injectionType == injectionType.GetOr("IMPORT")
      ensures !skipInject && resolvedConfig == None
    {
      this.base := base.GetOr("/");
      this.injectionType := injectionType.GetOr("IMPORT");
      skipInject := false;
      resolvedConfig := None;
    }

    /** The `config` hook: every listed output whose `hoistTransitiveImports` is not a
        boolean gets `false`; explicit booleans are left as they are. `outputs` is
        `[build?.rollupOptions?.output].flat()`, null standing for a missing entry. */
    method Config(outputs: seq<OutputOptions?>)
      modifies set o | o in outputs && o != null
      ensures forall o :: o in outputs && o != null ==>
                o.hoistTransitiveImports == HoistDefault(old(o.hoistTransitiveImports))
    {
      for k := 0 to |outputs|
        invariant forall o :: o in outputs && o != null ==>
                    o.hoistTransitiveImports == if o in outputs[..k]
                                                then HoistDefault(old(o.hoistTransitiveImports))
                                                else old(o.hoistTransitiveImports)
      {
        var item := outputs[k];
        assert outputs[..k + 1] == outputs[..k] + [item];
        if item != null && item.hoistTransitiveImports.None? {
          item.hoistTransitiveImports := Some(false);
        }
      }
      assert outputs[..|outputs|] == outputs;
    }

    /** The `configResolved` hook keeps the configuration for the later hooks. */
    method ConfigResolved(config: ResolvedConfig)
      modifies this`resolvedConfig
      ensures resolvedConfig == Some(config)
    {
      resolvedConfig := Some(config);
    }

    /** The `options` hook: runs every check, raises `skipInject` (never lowers it) when
        a blocking one fires, and returns the messages it prints. */
    method Options(rollupVersion: string) returns (messages: seq<string>)
      requires resolvedConfig.Some?
      modifies this`skipInject
      ensures skipInject == (old(skipInject) || Evaluate(resolvedConfig.value, rollupVersion).skip)
      ensures messages == Evaluate(resolvedConfig.value, rollupVersion).messages
    {
      var config := resolvedConfig.value;
      ghost var verdict := Evaluate(config, rollupVersion);
      messages := [];
      if !config.lib || config.command != "build" {
        skipInject := true;
        messages := messages + [NotEligibleMessage];
      }
      assert messages == MessageIf(NotLibraryBuild(config), NotEligibleMessage);
      if Some(true) in config.outputPreserveModules {
        skipInject := true;
        messages := messages + [OutputPreserveModulesMessage];
      }
      assert messages == MessageIf(NotLibraryBuild(config), NotEligibleMessage)
                         + MessageIf(OutputPreservesModules(config), OutputPreserveModulesMessage);
      if RollupMajorBelow4(rollupVersion) && config.legacyPreserveModules == Some(true) {
        skipInject := true;
        messages := messages + [LegacyPreserveModulesMessage];
      }
      assert messages == MessageIf(NotLibraryBuild(config), NotEligibleMessage)
                         + MessageIf(OutputPreservesModules(config), OutputPreserveModulesMessage)
                         + MessageIf(LegacyPreservesModules(config, rollupVersion), LegacyPreserveModulesMessage);
      if config.ssr && config.ssrEmitAssets == Some(false) {
        messages := messages + [SsrEmitAssetsMessage];
      }
    }

    /** Whether generateBundle rewrites `entry`: injection is on, and the entry is a
        chunk with at least one stylesheet. */
    predicate Rewrites(entry: OutputFile)
      reads this
    {
      !skipInject && entry.entryType == Chunk && |entry.importedCss| > 0
    }

    /** `code` and `sourceMap` are what generateBundle makes of a chunk whose code and map
        were `original` and `originalMap`: the rewritten code, and a map generated for it
        when source maps are on. */
    ghost predicate RewrittenFrom(format: string, libraries: Libraries, sourcemap: bool, fileName: string,
                                  importedCss: seq<string>, original: string, originalMap: Option<SourceMap>,
                                  code: string, sourceMap: Option<SourceMap>)
    {
      && InjectionPoint(libraries.parse(original)) <= |original|
      && code == RewrittenCode(injectionType, base, format, libraries, fileName, original, importedCss)
      && sourceMap == if sourcemap then Some(Boundary(code)) else originalMap
    }

    /** The work generateBundle does on one chunk that has stylesheets: the anchor is
        taken once from the parse of the original code, the fragments are spliced in,
        and the code and, when source maps are on, the map are replaced. */
    method RewriteChunk(format: string, chunk: OutputFile, libraries: Libraries)
      requires resolvedConfig.Some?
      requires WellFormed(libraries.parse(chunk.code), |chunk.code|)
      modifies chunk
      ensures RewrittenFrom(format, libraries, resolvedConfig.value.sourcemap, chunk.fileName, chunk.importedCss,
                            old(chunk.code), old(chunk.sourceMap), chunk.code, chunk.sourceMap)
    {
      var nodes := libraries.parse(chunk.code);
      InjectionPointSeparates(nodes, |chunk.code|);
      var position := InjectionPoint(nodes);
      var code := InjectStyles(injectionType, base, format, libraries, chunk.fileName, chunk.code,
                               position, chunk.importedCss);
      chunk.code := code;
      if resolvedConfig.value.sourcemap {
        chunk.sourceMap := Some(Boundary(code));
      }
    }

    /** What generateBundle does with one entry of the bundle: a chunk with stylesheets
        is rewritten, and any other entry is left alone. */
    method VisitEntry(format: string, entry: OutputFile, libraries: Libraries)
      requires resolvedConfig.Some?
      requires Rewrites(entry) ==> WellFormed(libraries.parse(entry.code), |entry.code|)
      modifies entry
      ensures Rewrites(entry) ==>
                RewrittenFrom(format, libraries, resolvedConfig.value.sourcemap, entry.fileName, entry.importedCss,
                              old(entry.code), old(entry.sourceMap), entry.code, entry.sourceMap)
      ensures !Rewrites(entry) ==> entry.code == old(entry.code) && entry.sourceMap == old(entry.sourceMap)
    {
      if !skipInject && entry.entryType == Chunk && |entry.importedCss| > 0 {
        RewriteChunk(format, entry, libraries);
      }
    }

    /** The `generateBundle` hook over the bundle's values. Every chunk with stylesheets
        is rewritten from its original code and map, unless injection is skipped; every
        other entry keeps its code and map (so a skipped build changes nothing, since
        `Rewrites` holds of no entry then). */
    method GenerateBundle(format: string, bundle: array<OutputFile>, libraries: Libraries)
      requires resolvedConfig.Some?
      requires forall i, j :: 0 <= i < j < bundle.Length ==> bundle[i] != bundle[j]
      requires forall i :: 0 <= i < bundle.Length && Rewrites(bundle[i]) ==>
                 WellFormed(libraries.parse(bundle[i].code), |bundle[i].code|)
      modifies set i | 0 <= i < bundle.Length :: bundle[i]
      ensures forall i :: 0 <= i < bundle.Length && Rewrites(bundle[i]) ==>
                RewrittenFrom(format, libraries, resolvedConfig.value.sourcemap, bundle[i].fileName,
                              bundle[i].importedCss, old(bundle[i].code), old(bundle[i].sourceMap),
                              bundle[i].code, bundle[i].sourceMap)
      ensures forall i :: 0 <= i < bundle.Length && !Rewrites(bundle[i]) ==>
                bundle[i].code == old(bundle[i].code) && bundle[i].sourceMap == old(bundle[i].sourceMap)
    {
      if skipInject {
        return;
      }
      for i := 0 to bundle.Length
        invariant forall j :: 0 <= j < i && Rewrites(bundle[j]) ==>
                    RewrittenFrom(format, libraries, resolvedConfig.value.sourcemap, bundle[j].fileName,
                                  bundle[j].importedCss, old(bundle[j].code), old(bundle[j].sourceMap),
                                  bundle[j].code, bundle[j].sourceMap)
        invariant forall j :: 0 <= j < bundle.Length && (i <= j || !Rewrites(bundle[j])) ==>
                    bundle[j].code == old(bundle[j].code) && bundle[j].sourceMap == old(bundle[j].sourceMap)
      {
        label before:
        VisitEntry(format, bundle[i], libraries);
        forall j | 0 <= j < bundle.Length && j != i
          ensures bundle[j].code == old@before(bundle[j].code)
          ensures bundle[j].sourceMap == old@before(bundle[j].sourceMap)
        {
          assert bundle[j] != bundle[i];
        }
      }
    }
  }
}
