/** The compilation planner of CompileScss (packages/semi-scss-compile/index.ts):
    getScssFolderMap and getScssFilePathPreparingForCompiling, over a
    filesystem snapshot. */
module Planner {
  import opened Results
  import opened Sequences
  import opened FileSystem
  import opened Options

  /** `path.join(COMPONENT_SCSS_PATH, name, name + '.scss')`: the file getScssFolderMap stats. */
  function FolderEntryFile(root: Path, name: string): Path
  {
    Join(Join(root, name), name + ".scss")
  }

  /** statSync(`<root>/<name>/<name>.scss`).isFile(), false where statSync throws. */
  predicate HasEntryFile(fs: Snapshot, root: Path, name: string)
  {
    IsFile(fs, FolderEntryFile(root, name))
  }

  /** The listed names whose entry stylesheet is a file, in listing order. */
  function FoldersWithScss(fs: Snapshot, root: Path, names: seq<string>): seq<string>
  {
    Filter(names, n => HasEntryFile(fs, root, n))
  }

  /** getScssFolderMap: list `filepath` (a failed readdir is re-thrown) and
      keep each name N for which `COMPONENT_SCSS_PATH/N/N.scss` is a file;
      a statSync that throws for a missing path is swallowed. */
  method GetScssFolderMap(fs: Snapshot, opts: CompileScssOptions, filepath: Path)
    returns (r: Result<seq<string>, FsError>)
    ensures r.Err? <==> !IsDir(fs, filepath)
    ensures r.Err? ==> ReadDir(fs, filepath) == Err(r.error)
    ensures r.Ok? ==> r.value == FoldersWithScss(fs, opts.componentScssPath, Entries(fs, filepath))
    ensures r.Ok? ==> forall n :: n in r.value <==>
      n in Entries(fs, filepath) && HasEntryFile(fs, opts.componentScssPath, n)
  {
    var files := ReadDir(fs, filepath);
    if files.Err? {
      return Err(files.error);
    }
    var names := files.value;
    var folderWithScss: seq<string> := [];
    var i := 0;
    while i < |names|
      invariant 0 <= i <= |names|
      invariant folderWithScss == FoldersWithScss(fs, opts.componentScssPath, names[..i])
    {
      FoldersWithScssStep(fs, opts.componentScssPath, names, i);
      var fileName := names[i];
      if HasEntryFile(fs, opts.componentScssPath, fileName) {
        folderWithScss := folderWithScss + [fileName];
      }

      i := i + 1;
    }
    assert names[..i] == names;
    return Ok(folderWithScss);
  }

  /** The folder filter over one more listed name. */
  lemma FoldersWithScssStep(fs: Snapshot, root: Path, names: seq<string>, i: nat)
    requires i < |names|
    ensures FoldersWithScss(fs, root, names[..i + 1]) ==
      FoldersWithScss(fs, root, names[..i]) + (if HasEntryFile(fs, root, names[i]) then [names[i]] else [])
  {
    assert names[..i + 1][..i] == names[..i];
  }

  /** `OUTPUT_SEMI_SCSS_PATH.split('semi.scss')[0] + 'scss'`. */
  function OutPutScss(outputSemiScssPath: string): string
  {
    BeforeFirst(outputSemiScssPath, "semi.scss") + "scss"
  }

  /** The theme directory next to the entry stylesheet (index.ts:64): the
      text before the first `semi.scss`, followed by `scss`. */
  lemma OutPutScssSibling(dir: string, rest: string)
    requires forall j :: 0 <= j < |dir| ==> !OccursAt(dir + "semi.scss" + rest, "semi.scss", j)
    ensures OutPutScss(dir + "semi.scss" + rest) == dir + "scss"
  {
    var p := dir + "semi.scss" + rest;
    assert p[|dir|..|dir| + 9] == "semi.scss";
    assert OccursAt(p, "semi.scss", |dir|);
    assert p[..|dir|] == dir;
  }

  /** Without any `semi.scss` in the path, `scss` is simply appended. */
  lemma OutPutScssWithoutEntryName(p: string)
    requires forall j :: 0 <= j < |p| ==> !OccursAt(p, "semi.scss", j)
    ensures OutPutScss(p) == p + "scss"
  {
    assert p[..|p|] == p;
  }

  datatype ThemeEntry = ThemeEntry(name: string, path: Path)

  /** The theme keys of the plan, in the order the source declares them. */
  const ThemeNames: seq<string> :=
    ["index.scss", "global.scss", "local.scss", "_font.scss", "_palette.scss", "mixin.scss", "variables.scss"]

  /** The relative-mode theme map, as written: `_font.scss` is spelled `.scss/_font.scss`. */
  function RelativeTheme(): seq<ThemeEntry>
  {
    [ ThemeEntry("index.scss", "./scss/index.scss"),
      ThemeEntry("global.scss", "./scss/global.scss"),
      ThemeEntry("local.scss", "./scss/local.scss"),
      ThemeEntry("_font.scss", ".scss/_font.scss"),
      ThemeEntry("_palette.scss", "./scss/_palette.scss"),
      ThemeEntry("mixin.scss", "./scss/mixin.scss"),
      ThemeEntry("variables.scss", "./scss/variables.scss") ]
  }

  /** The absolute-mode theme map: the seven templates `${outPutScss}/<name>`, in the same order. */
  function AbsoluteTheme(outPutScss: string): seq<ThemeEntry>
  {
    seq(|ThemeNames|, i requires 0 <= i < |ThemeNames| => ThemeEntry(ThemeNames[i], outPutScss + "/" + ThemeNames[i]))
  }

  function ThemeCandidates(opts: CompileScssOptions): seq<ThemeEntry>
  {
    if opts.useAbsolutePath then AbsoluteTheme(OutPutScss(opts.outputSemiScssPath)) else RelativeTheme()
  }

  /** semiUIPath, replaced by absolutePath in absolute mode (index.ts:93). */
  function UIPath(opts: CompileScssOptions): Path
  {
    if opts.useAbsolutePath then opts.absolutePath else opts.semiUIPath
  }

  /** `${semiUIPath}/${scssFile}${scssFile}.scss`, as written: no separator between the two copies of the name. */
  function FolderPlanPath(ui: Path, name: string): Path
  {
    ui + "/" + name + name + ".scss"
  }

  /** The two fixed extras the planner appends, relative to the UI root. */
  const IconButtonEntry: string := "/button/iconButton.scss"
  const TextareaEntry: string := "/input/textarea.scss"

  /** One path per kept folder, then the two fixed extras. */
  function ComponentCandidates(ui: Path, folders: seq<string>): seq<Path>
  {
    seq(|folders|, i requires 0 <= i < |folders| => FolderPlanPath(ui, folders[i]))
      + [ui + IconButtonEntry, ui + TextareaEntry]
  }

  /** `components.filter(path => fs.existsSync(path))`. */
  function KeepExisting(fs: Snapshot, paths: seq<Path>): seq<Path>
  {
    Filter(paths, p => Exists(fs, p))
  }

  datatype Plan = Plan(components: seq<Path>, theme: seq<ThemeEntry>)

  /** Some theme entry names a path that does not exist. */
  predicate ThemePathMissing(fs: Snapshot, theme: seq<ThemeEntry>)
  {
    exists e :: e in theme && !Exists(fs, e.path)
  }

  /** getScssFilePathPreparingForCompiling: list the component folders, pick
      the theme map by mode, push one path per folder and the two extras,
      keep the existing ones, then stat every theme path. statSync throws
      for a missing path and the Stats it returns is always truthy, so a
      missing theme file rejects the plan and `delete` never runs. */
  method GetScssFilePathPreparingForCompiling(fs: Snapshot, opts: CompileScssOptions)
    returns (r: Result<Plan, FsError>)
    ensures r.Err? <==> !IsDir(fs, opts.componentScssPath) || ThemePathMissing(fs, ThemeCandidates(opts))
    ensures !IsDir(fs, opts.componentScssPath) ==> r.Err? && ReadDir(fs, opts.componentScssPath) == Err(r.error)
    ensures r.Ok? ==>
              r.value.components ==
              KeepExisting(fs, ComponentCandidates(UIPath(opts),
                FoldersWithScss(fs, opts.componentScssPath, Entries(fs, opts.componentScssPath))))
    ensures r.Ok? ==> r.value.theme == ThemeCandidates(opts)
    ensures r.Ok? ==> forall p :: p in r.value.components ==> Exists(fs, p)
    ensures r.Ok? ==> forall e :: e in r.value.theme ==> Exists(fs, e.path)
  {
    var componentScssPath := opts.componentScssPath;
    var outPutScss := OutPutScss(opts.outputSemiScssPath);
    var folders := GetScssFolderMap(fs, opts, componentScssPath);
    if folders.Err? {
      return Err(folders.error);
    }
    var folderWithScss := folders.value;
    var theme := RelativeTheme();
    var semiUIPath := opts.semiUIPath;
    if opts.useAbsolutePath {
      semiUIPath := opts.absolutePath;
      theme := AbsoluteTheme(outPutScss);
    }
    var components := PushComponents(semiUIPath, folderWithScss);
    components := KeepExisting(fs, components);
    var k := 0;
    while k < |theme|
      invariant 0 <= k <= |theme|
      invariant forall j :: 0 <= j < k ==> Exists(fs, theme[j].path)
    {
      if !Exists(fs, theme[k].path) {
        return Err(NoEntry(theme[k].path));
      }
      k := k + 1;
    }
    return Ok(Plan(components, theme));
  }

  /** The pushes of the planner: one path per kept folder, then the two extras. */
  method PushComponents(semiUIPath: Path, folderWithScss: seq<string>) returns (components: seq<Path>)
    ensures components == ComponentCandidates(semiUIPath, folderWithScss)
  {
    components := [];
    var i := 0;
    while i < |folderWithScss|
      invariant 0 <= i <= |folderWithScss|
      invariant components == seq(i, j requires 0 <= j < i => FolderPlanPath(semiUIPath, folderWithScss[j]))
    {
      components := components + [FolderPlanPath(semiUIPath, folderWithScss[i])];
      i := i + 1;
    }
    components := components + [semiUIPath + IconButtonEntry];
    components := components + [semiUIPath + TextareaEntry];
  }

  /** A name readdir can list: not empty, no separator. */
  predicate PlainName(n: string)
  {
    n != "" && '/' !in n
  }

  /** Two planned paths under one UI root are equal only if their tails are. */
  lemma SameRootTails(ui: Path, a: string, b: string)
    requires ui + "/" + a == ui + "/" + b
    ensures a == b
  {
    assert a == (ui + "/" + a)[|ui| + 1..];
    assert b == (ui + "/" + b)[|ui| + 1..];
  }

  /** The doubled name `NN.scss` determines N. */
  lemma DoubledNameInjective(f: string, g: string)
    requires f + f + ".scss" == g + g + ".scss"
    ensures f == g
  {
    assert |f| == |g|;
    assert f == (f + f + ".scss")[..|f|];
    assert g == (g + g + ".scss")[..|g|];
  }

  /** A folder's planned path is never one of the two fixed extras, and two folders never share one. */
  lemma FolderPlanPathsDistinct(ui: Path, f: string, g: string)
    requires PlainName(f) && PlainName(g)
    ensures FolderPlanPath(ui, f) != ui + IconButtonEntry
    ensures FolderPlanPath(ui, f) != ui + TextareaEntry
    ensures f != g ==> FolderPlanPath(ui, f) != FolderPlanPath(ui, g)
  {
    ExtrasAreNested();
    PlanPathNotNested(ui, f, IconButtonEntry);
    PlanPathNotNested(ui, f, TextareaEntry);
    if f != g {
      PlanPathInjective(ui, f, g);
    }
  }

  /** Both extras sit one directory below the UI root. */
  lemma ExtrasAreNested()
    ensures |IconButtonEntry| > 0 && IconButtonEntry[0] == '/' && '/' in IconButtonEntry[1..]
    ensures |TextareaEntry| > 0 && TextareaEntry[0] == '/' && '/' in TextareaEntry[1..]
  {
    assert IconButtonEntry[1..][6] == '/';
    assert TextareaEntry[1..][5] == '/';
  }

  /** A folder's planned path has no `/` after the root's, so it differs from any nested path. */
  lemma PlanPathNotNested(ui: Path, f: string, tail: string)
    requires PlainName(f) && |tail| > 0 && tail[0] == '/' && '/' in tail[1..]
    ensures FolderPlanPath(ui, f) != ui + tail
  {
    var own := f + f + ".scss";
    assert FolderPlanPath(ui, f)[|ui| + 1..] == own;
    assert (ui + tail)[|ui| + 1..] == tail[1..];
    assert '/' !in own;
  }

  /** Distinct folders get distinct planned paths. */
  lemma PlanPathInjective(ui: Path, f: string, g: string)
    requires f != g
    ensures FolderPlanPath(ui, f) != FolderPlanPath(ui, g)
  {
    assert FolderPlanPath(ui, f) == ui + "/" + (f + f + ".scss");
    assert FolderPlanPath(ui, g) == ui + "/" + (g + g + ".scss");
    if FolderPlanPath(ui, f) == FolderPlanPath(ui, g) {
      SameRootTails(ui, f + f + ".scss", g + g + ".scss");
      DoubledNameInjective(f, g);
      assert false;
    }
  }

  /** No duplicates in the component plan: when the component directory lists each name once, and names are
      plain, every planned component path is distinct. */
  lemma PlannedComponentsDistinct(fs: Snapshot, opts: CompileScssOptions)
    requires NoDuplicates(Entries(fs, opts.componentScssPath))
    requires forall n :: n in Entries(fs, opts.componentScssPath) ==> PlainName(n)
    ensures NoDuplicates(KeepExisting(fs, ComponentCandidates(UIPath(opts),
      FoldersWithScss(fs, opts.componentScssPath, Entries(fs, opts.componentScssPath)))))
  {
    var root := opts.componentScssPath;
    var ui := UIPath(opts);
    var folders := FoldersWithScss(fs, root, Entries(fs, root));
    FilterNoDuplicates(Entries(fs, root), n => HasEntryFile(fs, root, n));
    var c := ComponentCandidates(ui, folders);
    forall i, j | 0 <= i < j < |c| ensures c[i] != c[j] {
      if j < |folders| {
        assert folders[i] in folders && folders[j] in folders;
        FolderPlanPathsDistinct(ui, folders[i], folders[j]);
      } else if i < |folders| {
        assert folders[i] in folders;
        FolderPlanPathsDistinct(ui, folders[i], folders[i]);
      } else {
        assert i == |folders| && j == |folders| + 1;
        assert IconButtonEntry[1] != TextareaEntry[1];
        assert c[i][|ui| + 1] != c[j][|ui| + 1];
      }
    }
    FilterNoDuplicates(c, p => Exists(fs, p));
  }

  /** A UI root `ui` holding one component folder, `button`, with its entry stylesheet. */
  function OneButtonTree(): Snapshot
  {
    Snapshot(map["ui" := Dir(["button"]), "ui/button" := Dir(["button.scss"]), "ui/button/button.scss" := File("")])
  }

  /** The folder filter finds `button` in OneButtonTree. */
  lemma OneButtonTreeFolders()
    ensures FoldersWithScss(OneButtonTree(), "ui", Entries(OneButtonTree(), "ui")) == ["button"]
  {
    var fs := OneButtonTree();
    assert FolderEntryFile("ui", "button") == "ui/button/button.scss";
    assert Entries(fs, "ui") == ["button"];
    assert ["button"][..0] == [];
  }

  /** OneButtonTree holds paths of lengths 2, 9 and 21 only. */
  lemma AbsentFromOneButtonTree(p: Path)
    requires |p| != 2 && |p| != 9 && |p| != 21
    ensures !Exists(OneButtonTree(), p)
  {
  }

  /** Nothing survives the existence filter when no path exists. */
  lemma {:induction false} KeepExistingNone(fs: Snapshot, paths: seq<Path>)
    requires forall i :: 0 <= i < |paths| ==> !Exists(fs, paths[i])
    ensures KeepExisting(fs, paths) == []
  {
    if paths != [] {
      var init := paths[..|paths| - 1];
      KeepExistingNone(fs, init);
      assert !Exists(fs, paths[|paths| - 1]);
    }
  }

  /** As written, a found folder's planned path misses its separator: where
      the folder filter finds `ui/button/button.scss` (OneButtonTreeFolders),
      the plan asks for `ui/buttonbutton.scss`, and the existence filter
      drops it with the two extras, leaving no component at all. */
  lemma FolderPlanPathQuirk()
    ensures FolderPlanPath("ui", "button") == "ui/buttonbutton.scss"
    ensures KeepExisting(OneButtonTree(), ComponentCandidates("ui", ["button"])) == []
  {
    var c := CandidatesOfOne("ui", "button");
    AbsentFromOneButtonTree(c[0]);
    AbsentFromOneButtonTree(c[1]);
    AbsentFromOneButtonTree(c[2]);
    KeepExistingNone(OneButtonTree(), c);
  }

  /** The candidates planned for a single kept folder. */
  lemma CandidatesOfOne(ui: Path, name: string) returns (c: seq<Path>)
    ensures c == ComponentCandidates(ui, [name])
    ensures c == [FolderPlanPath(ui, name), ui + IconButtonEntry, ui + TextareaEntry]
  {
    c := ComponentCandidates(ui, [name]);
    assert c[0] == FolderPlanPath(ui, [name][0]);
  }

  /** The folder path the planner evidently means: `<ui>/<name>/<name>.scss`. */
  function IntendedFolderPlanPath(ui: Path, name: string): Path
  {
    ui + "/" + name + "/" + name + ".scss"
  }

  /** The relative-mode theme map with `_font.scss` under `./scss/` like the others. */
  function IntendedRelativeTheme(): seq<ThemeEntry>
  {
    seq(|ThemeNames|, i requires 0 <= i < |ThemeNames| => ThemeEntry(ThemeNames[i], "./scss/" + ThemeNames[i]))
  }

  /** The evident intent of the `//filter non-exist file` loop: drop the missing theme entries. */
  function PruneTheme(fs: Snapshot, theme: seq<ThemeEntry>): seq<ThemeEntry>
  {
    Filter(theme, (e: ThemeEntry) => Exists(fs, e.path))
  }

  /** The corrected component candidates: one separated path per folder, then the two extras. */
  function IntendedComponents(ui: Path, folders: seq<string>): seq<Path>
  {
    seq(|folders|, i requires 0 <= i < |folders| => IntendedFolderPlanPath(ui, folders[i]))
      + [ui + IconButtonEntry, ui + TextareaEntry]
  }

  /** The corrected theme map of either mode. */
  function IntendedTheme(opts: CompileScssOptions): seq<ThemeEntry>
  {
    if opts.useAbsolutePath then AbsoluteTheme(OutPutScss(opts.outputSemiScssPath)) else IntendedRelativeTheme()
  }

  /** The planner with the three corrections: separated folder paths, a
      uniform relative theme map, and missing theme entries dropped. */
  function IntendedPlan(fs: Snapshot, opts: CompileScssOptions): Result<Plan, FsError>
  {
    var listing := ReadDir(fs, opts.componentScssPath);
    if listing.Err? then Err(listing.error)
    else
      var folders := FoldersWithScss(fs, opts.componentScssPath, listing.value);
      Ok(Plan(KeepExisting(fs, IntendedComponents(UIPath(opts), folders)), PruneTheme(fs, IntendedTheme(opts))))
  }

  /** The corrected planner fails only on an unreadable component directory,
      and otherwise keeps exactly the existing theme entries, whatever the
      theme directory holds. */
  lemma IntendedPlanFailsOnlyOnListing(fs: Snapshot, opts: CompileScssOptions)
    ensures IntendedPlan(fs, opts).Err? <==> !IsDir(fs, opts.componentScssPath)
    ensures IntendedPlan(fs, opts).Ok? ==> forall e :: e in IntendedPlan(fs, opts).value.theme <==>
      e in IntendedTheme(opts) && Exists(fs, e.path)
  {
  }

  /** With the UI root equal to the component directory, the corrected plan
      starts with the entry stylesheet of every folder the folder filter
      found, in order: each of them is a file, so none is dropped. */
  lemma IntendedPlanKeepsFoundFolders(fs: Snapshot, root: Path, names: seq<string>)
    requires root != "" && root[|root| - 1] != '/'
    requires forall n :: n in names ==> PlainName(n)
    ensures var folders := FoldersWithScss(fs, root, names);
      && |KeepExisting(fs, IntendedComponents(root, folders))| >= |folders|
      && KeepExisting(fs, IntendedComponents(root, folders))[..|folders|] ==
        seq(|folders|, i requires 0 <= i < |folders| => FolderEntryFile(root, folders[i]))
  {
    var folders := FoldersWithScss(fs, root, names);
    var mapped := seq(|folders|, i requires 0 <= i < |folders| => IntendedFolderPlanPath(root, folders[i]));
    var extras := [root + IconButtonEntry, root + TextareaEntry];
    forall i | 0 <= i < |folders| ensures mapped[i] == FolderEntryFile(root, folders[i]) && Exists(fs, mapped[i]) {
      assert folders[i] in folders;
      IntendedPathIsEntryFile(fs, root, folders[i]);
    }
    FilterKeepsAll(mapped, p => Exists(fs, p));
    FilterAppend(mapped, extras, p => Exists(fs, p));
    assert IntendedComponents(root, folders) == mapped + extras;
    assert KeepExisting(fs, mapped + extras)[..|folders|] == mapped;
  }

  /** For a plain folder name under a root without a trailing `/`, the
      corrected plan path is the entry file the folder filter checked. */
  lemma IntendedPathIsEntryFile(fs: Snapshot, root: Path, n: string)
    requires root != "" && root[|root| - 1] != '/'
    requires PlainName(n) && HasEntryFile(fs, root, n)
    ensures IntendedFolderPlanPath(root, n) == FolderEntryFile(root, n)
    ensures Exists(fs, IntendedFolderPlanPath(root, n))
  {
    assert Join(root, n) == root + "/" + n;
    assert (root + "/" + n)[|root + "/" + n| - 1] == n[|n| - 1];
  }

  /** As written, relative mode rejects whenever `.scss/_font.scss` is
      missing, even with every `./scss/<name>` file present. */
  lemma RelativeThemeRejectsWithoutDotScssFont(fs: Snapshot, opts: CompileScssOptions)
    requires !opts.useAbsolutePath && !Exists(fs, ".scss/_font.scss")
    ensures ThemePathMissing(fs, ThemeCandidates(opts))
  {
    assert RelativeTheme()[3] == ThemeEntry("_font.scss", ".scss/_font.scss");
    assert RelativeTheme()[3] in ThemeCandidates(opts);
  }
}
