/** The options of CompileScss (packages/semi-scss-compile/index.ts), with
    the two outer bindings its planner reads, semiUIPath and absolutePath, made
    explicit fields. */
module Options {
  import opened Results

  datatype CompileScssOptions = CompileScssOptions(
    componentScssPath: string,               // COMPONENT_SCSS_PATH
    componentExtraScssPath: Option<string>,  // COMPONENT_EXTRA_SCSS_PATH
    outputSemiScssPath: string,              // OUTPUT_SEMI_SCSS_PATH
    outputSemiCssPath: string,               // OUTPUT_SEMI_CSS_PATH
    outputSemiCssMinPath: Option<string>,    // OUTPUT_SEMI_CSS_MIN_PATH
    useAbsolutePath: bool,                   // useAbsolutePath
    semiUIPath: string,                      // the global semiUIPath
    absolutePath: string                     // the global absolutePath
  )

  /** JavaScript truthiness of an optional string: set and not empty. */
  predicate Truthy(o: Option<string>)
  {
    o.Some? && o.value != ""
  }
}
