/** The compile driver of CompileScss (packages/semi-scss-compile/index.ts):
    the importer handed to the sass compiler, the per-pass options of
    sassRender, and how compile combines the normal and the minified pass.
    The sass compiler and the outcome of writing its output are inputs. */
module Orchestrator {
  import opened Results
  import opened Sequences
  import opened FileSystem
  import opened Options
  import opened ImportRewriter

  /** The prefix of the import URLs the importer rewrites. */
  const InterceptPrefix: string := "../semi-ui/"

  /** What the importer hands back to sass: the rewritten text, or the URL to load as is. */
  datatype ImporterResult = Contents(contents: string) | FileRef(file: string)

  /** The importer of sassRender: a URL under `../semi-ui/` is read and
      rewritten (a read that fails is an error sass reports); any other URL
      is passed through untouched. */
  method Importer(fs: Snapshot, opts: CompileScssOptions, url: string) returns (r: Result<ImporterResult, FsError>)
    ensures !StartsWith(url, InterceptPrefix) ==> r == Ok(FileRef(url))
    ensures StartsWith(url, InterceptPrefix) ==>
      (r.Err? <==> !IsFile(fs, url)) &&
      (r.Err? ==> ReadFile(fs, url) == Err(r.error)) &&
      (r.Ok? ==> r.value == Contents(Rewritten(Content(fs, url), opts.componentExtraScssPath)))
  {
    if StartsWith(url, InterceptPrefix) {
      var result := RewriteFile(fs, url, opts.componentExtraScssPath);
      if result.Err? {
        return Err(result.error);
      }
      return Ok(Contents(result.value));
    }
    return Ok(FileRef(url));
  }

  datatype OutputStyle = Expanded | Compressed

  /** The render options of one pass: the entry file, the output style and
      the file the CSS is written to (unset when the min path is unset). */
  datatype PassConfig = PassConfig(file: Path, style: OutputStyle, output: Option<Path>)

  /** The options sassRender(compressed) renders with. */
  function RenderConfig(opts: CompileScssOptions, compressed: bool): (c: PassConfig)
    ensures c.file == opts.outputSemiScssPath
    ensures c.style == Compressed <==> compressed
    ensures compressed ==> c.output == opts.outputSemiCssMinPath
    ensures !compressed ==> c.output == Some(opts.outputSemiCssPath)
  {
    var config := PassConfig(opts.outputSemiScssPath, Expanded, Some(opts.outputSemiCssPath));
    if compressed then config.(style := Compressed, output := opts.outputSemiCssMinPath) else config
  }

  /** What the sass compiler reports for one pass. */
  datatype SassOutcome = Rendered(css: string) | SassError(column: int, message: string)

  /** The environment of one pass: what sass reports and whether writing its output succeeds. */
  datatype PassEnv = PassEnv(sass: SassOutcome, writeSucceeds: bool)

  /** How a promise settles. sassRender only ever resolves true or rejects false. */
  datatype Settled = Fulfilled(value: bool) | Rejected(reason: bool)

  /** A pass succeeds when sass renders and the CSS is written to a set target. */
  predicate PassSucceeds(opts: CompileScssOptions, compressed: bool, env: PassEnv)
  {
    env.sass.Rendered? && env.writeSucceeds && RenderConfig(opts, compressed).output.Some?
  }

  /** sassRender(compressed): a sass error rejects with false; otherwise the
      CSS is written to the pass's target, and the promise resolves true when
      the write succeeds and rejects with false when it fails (a write to an
      unset target fails). Returns the settled promise and the files written. */
  method SassRender(opts: CompileScssOptions, compressed: bool, env: PassEnv)
    returns (r: Settled, written: map<Path, string>)
    ensures r == Fulfilled(true) || r == Rejected(false)
    ensures r == Fulfilled(true) <==> PassSucceeds(opts, compressed, env)
    ensures r.Fulfilled? ==> written == map[RenderConfig(opts, compressed).output.value := env.sass.css]
    ensures r.Rejected? ==> written == map[]
  {
    var config := RenderConfig(opts, compressed);
    written := map[];
    if env.sass.SassError? {
      r := Rejected(false);
    } else if config.output.None? || !env.writeSucceeds {
      r := Rejected(false);
    } else {
      written := map[config.output.value := env.sass.css];
      r := Fulfilled(true);
    }
  }

  /** compile, as written: the normal pass is awaited, so its rejection
      rejects compile and the min pass never starts; the min pass runs only
      when OUTPUT_SEMI_CSS_MIN_PATH is set, and its rejection rejects
      compile too. `passes` lists the passes started (false: normal, true:
      compressed); `written` the files written. generateSemiScss is taken
      to complete. */
  method Compile(opts: CompileScssOptions, normal: PassEnv, min: PassEnv)
    returns (r: Settled, passes: seq<bool>, written: map<Path, string>)
    ensures r != Fulfilled(false)
    ensures r.Rejected? ==> r.reason == false
    ensures r == Fulfilled(true) <==>
      PassSucceeds(opts, false, normal) && (Truthy(opts.outputSemiCssMinPath) ==> PassSucceeds(opts, true, min))
    ensures passes == [false] +
      (if PassSucceeds(opts, false, normal) && Truthy(opts.outputSemiCssMinPath) then [true] else [])
    ensures r == Fulfilled(true) ==>
      && opts.outputSemiCssPath in written
      && (Truthy(opts.outputSemiCssMinPath) ==>
            opts.outputSemiCssMinPath.value in written && written[opts.outputSemiCssMinPath.value] == min.sass.css)
      && (!Truthy(opts.outputSemiCssMinPath) || opts.outputSemiCssMinPath.value != opts.outputSemiCssPath ==>
            written[opts.outputSemiCssPath] == normal.sass.css)
    ensures !PassSucceeds(opts, false, normal) ==> written == map[]
    ensures written ==
      (if PassSucceeds(opts, false, normal) then map[opts.outputSemiCssPath := normal.sass.css] else map[]) +
      (if PassSucceeds(opts, false, normal) && Truthy(opts.outputSemiCssMinPath) && PassSucceeds(opts, true, min)
       then map[opts.outputSemiCssMinPath.value := min.sass.css] else map[])
  {
    passes := [false];
    var compileResult, normalWritten := SassRender(opts, false, normal);
    written := normalWritten;
    if compileResult.Rejected? {
      return compileResult, passes, written;
    }
    var compileMinResult := true;
    if Truthy(opts.outputSemiCssMinPath) {
      passes := passes + [true];
      var minResult, minWritten := SassRender(opts, true, min);
      written := written + minWritten;
      if minResult.Rejected? {
        return minResult, passes, written;
      }
      compileMinResult := minResult.value;
    }
    r := Fulfilled(compileResult.value && compileMinResult);
  }

  /** What compile evidently means to return: `compileResult &&
      compileMinResult`, with a failed pass counting as false instead of
      rejecting. Both passes are attempted; the min pass only when its path
      is set. */
  method CompileCatchingRejections(opts: CompileScssOptions, normal: PassEnv, min: PassEnv)
    returns (ok: bool, passes: seq<bool>)
    ensures ok <==> PassSucceeds(opts, false, normal) && (Truthy(opts.outputSemiCssMinPath) ==> PassSucceeds(opts, true, min))
    ensures passes == [false] + (if Truthy(opts.outputSemiCssMinPath) then [true] else [])
  {
    passes := [false];
    var compileResult, normalWritten := SassRender(opts, false, normal);
    var compileMinResult := Fulfilled(true);
    if Truthy(opts.outputSemiCssMinPath) {
      passes := passes + [true];
      var minWritten;
      compileMinResult, minWritten := SassRender(opts, true, min);
    }
    ok := compileResult == Fulfilled(true) && compileMinResult == Fulfilled(true);
  }
}
