/** The stylesheet catalogs of packages/semi-scss-compile/generateSCSSMap.ts:
    every component's `.scss` files by component and file name, and the
    theme's whitelisted files by their lodash path, read from a filesystem
    snapshot. */
module ScssMap {
  import opened Results
  import opened Sequences
  import opened FileSystem

  /** An object of objects of strings: outer key, inner key, text. */
  type Catalog = map<string, map<string, string>>

  /** `lodash.set(obj, [outer, inner], value)` on a catalog: the outer entry
      is created when missing, and only the one inner key is written. */
  function SetPath(cat: Catalog, outer: string, inner: string, value: string): (r: Catalog)
    ensures r.Keys == cat.Keys + {outer}
    ensures forall k :: k in cat && k != outer ==> r[k] == cat[k]
    ensures r[outer].Keys == (if outer in cat then cat[outer].Keys else {}) + {inner}
    ensures r[outer][inner] == value
    ensures forall f :: outer in cat && f in cat[outer] && f != inner ==> r[outer][f] == cat[outer][f]
  {
    var old_inner := if outer in cat then cat[outer] else map[];
    cat[outer := old_inner[inner := value]]
  }

  // ---------------------------------------------------------------- components

  /** `fileName.endsWith('.scss')`: case-sensitive. */
  predicate IsScssName(n: string)
  {
    EndsWith(n, ".scss")
  }

  /** The `.scss` children of a directory, in listing order. */
  function ScssChildren(fs: Snapshot, dir: Path): seq<string>
  {
    Filter(Entries(fs, dir), n => IsScssName(n))
  }

  /** An entry of the foundation directory that exists and is a directory. */
  predicate ComponentDir(fs: Snapshot, root: Path, name: string)
  {
    IsDir(fs, Join(root, name))
  }

  /** Every `.scss` child of the directory can be read as a file. */
  ghost predicate ScssReadable(fs: Snapshot, dir: Path)
  {
    forall f :: f in ScssChildren(fs, dir) ==> IsFile(fs, Join(dir, f))
  }

  /** Some listed component directory has a `.scss` child readFileSync throws on. */
  ghost predicate SomeComponentUnreadable(fs: Snapshot, root: Path, names: seq<string>)
  {
    exists n :: n in names && ComponentDir(fs, root, n) && !ScssReadable(fs, Join(root, n))
  }

  /** The component catalog of the listed names: a key for exactly the
      component directories with at least one `.scss` child; under it,
      exactly those children, each mapped to its text. */
  ghost predicate IsComponentCatalog(fs: Snapshot, root: Path, names: seq<string>, cat: Catalog)
  {
    && (forall k :: k in cat <==> k in names && ComponentDir(fs, root, k) && ScssChildren(fs, Join(root, k)) != [])
    && (forall k, f :: k in cat ==> (f in cat[k] <==> f in ScssChildren(fs, Join(root, k))))
    && (forall k, f :: k in cat && f in cat[k] ==> cat[k][f] == Content(fs, Join(Join(root, k), f)))
  }

  /** generateComponentsScssMap: list the foundation directory; for each
      entry that is a directory, read each of its `.scss` children and store
      it under [component, file]. Any readdirSync or readFileSync that throws
      makes the whole call throw. */
  method GenerateComponentsScssMap(fs: Snapshot, foundationPath: Path) returns (r: Result<Catalog, FsError>)
    ensures r.Err? <==>
              (!IsDir(fs, foundationPath) || SomeComponentUnreadable(fs, foundationPath, Entries(fs, foundationPath)))
    ensures !IsDir(fs, foundationPath) ==> ReadDir(fs, foundationPath) == Err(r.error)
    ensures r.Ok? ==> IsComponentCatalog(fs, foundationPath, Entries(fs, foundationPath), r.value)
  {
    var listing := ReadDir(fs, foundationPath);
    if listing.Err? {
      return Err(listing.error);
    }
    var names := listing.value;
    var componentScssMap: Catalog := map[];
    for i := 0 to |names|
      invariant IsComponentCatalog(fs, foundationPath, names[..i], componentScssMap)
      invariant !SomeComponentUnreadable(fs, foundationPath, names[..i])
    {
      var fileName := names[i];
      assert names[..i + 1] == names[..i] + [fileName];
      var componentPath := Join(foundationPath, fileName);
      if Exists(fs, componentPath) && IsDir(fs, componentPath) {
        var scssFileList := ScssChildren(fs, componentPath);
        var added;
        ghost var before := componentScssMap;
        added, componentScssMap := AddComponent(fs, foundationPath, fileName, scssFileList, componentScssMap);
        if added.Err? {
          return Err(added.error);
        }
        StoreFinish(fs, foundationPath, names[..i], fileName, before, componentScssMap);
      }
    }
    assert names[..|names|] == names;
    return Ok(componentScssMap);
  }

  /** The catalog after storing the first j `.scss` children of component
      `name` into `cat`: only the entry `name` has changed, and it holds those
      children (and, when it was there before, all of them), each with its
      text. */
  ghost predicate StoredUpTo(fs: Snapshot, root: Path, name: string, files: seq<string>, j: nat, cat: Catalog, cat': Catalog)
    requires j <= |files|
  {
    && OnlyEntryChanged(name, j > 0, cat, cat')
    && (name in cat' ==> EntryHolds(fs, Join(root, name), files, j, name in cat, cat'[name]))
  }

  /** cat' is cat with at most the entry `name` changed, and added when `added`. */
  ghost predicate OnlyEntryChanged(name: string, added: bool, cat: Catalog, cat': Catalog)
  {
    && (forall k :: k in cat' <==> k in cat || (k == name && added))
    && (forall k :: k in cat' && k != name ==> cat'[k] == cat[k])
  }

  /** A component's entry holds its first j `.scss` children (all of them
      when it `was` there before), each with its text. */
  ghost predicate EntryHolds(fs: Snapshot, dir: Path, files: seq<string>, j: nat, was: bool, entry: map<string, string>)
    requires j <= |files|
  {
    && (forall f :: f in entry <==> f in files[..j] || (was && f in files))
    && (forall f :: f in entry ==> entry[f] == Content(fs, Join(dir, f)))
  }

  /** Storing one more child keeps StoredUpTo. */
  lemma StoreStep(fs: Snapshot, root: Path, name: string, files: seq<string>, j: nat, cat: Catalog, cat': Catalog)
    requires j < |files| && StoredUpTo(fs, root, name, files, j, cat, cat')
    ensures StoredUpTo(fs, root, name, files, j + 1, cat,
      SetPath(cat', name, files[j], Content(fs, Join(Join(root, name), files[j]))))
  {
    var dir := Join(root, name);
    var entry := if name in cat' then cat'[name] else map[];
    EntryStep(fs, dir, files, j, name in cat, entry);
    assert SetPath(cat', name, files[j], Content(fs, Join(dir, files[j])))[name] ==
      entry[files[j] := Content(fs, Join(dir, files[j]))];
  }

  /** Storing one more child into the entry of a component. */
  lemma EntryStep(fs: Snapshot, dir: Path, files: seq<string>, j: nat, was: bool, entry: map<string, string>)
    requires j < |files| && EntryHolds(fs, dir, files, j, was, entry)
    ensures EntryHolds(fs, dir, files, j + 1, was, entry[files[j] := Content(fs, Join(dir, files[j]))])
  {
    assert files[..j + 1] == files[..j] + [files[j]];
  }

  /** Once every child is stored, the catalog covers the component too. */
  lemma StoreFinish(fs: Snapshot, root: Path, done: seq<string>, name: string, cat: Catalog, cat': Catalog)
    requires ComponentDir(fs, root, name)
    requires IsComponentCatalog(fs, root, done, cat)
    requires var files := ScssChildren(fs, Join(root, name));
      StoredUpTo(fs, root, name, files, |files|, cat, cat')
    ensures IsComponentCatalog(fs, root, done + [name], cat')
  {
    var files := ScssChildren(fs, Join(root, name));
    assert files[..|files|] == files;
    forall k ensures k in cat' <==> k in done + [name] && ComponentDir(fs, root, k) && ScssChildren(fs, Join(root, k)) != [] {
      if k == name && files != [] {
        assert k in cat';
      }
    }
  }

  /** The inner loop of generateComponentsScssMap for one component
      directory: read each `.scss` child in turn and store it under
      [name, child]; the first read that throws ends the call. On success
      only the entry `name` has changed, and it holds every child with its
      text. */
  method AddComponent(fs: Snapshot, root: Path, name: string, files: seq<string>, cat: Catalog)
    returns (r: Result<(), FsError>, cat': Catalog)
    requires files == ScssChildren(fs, Join(root, name))
    requires StoredUpTo(fs, root, name, files, 0, cat, cat)
    ensures r.Err? <==> !ScssReadable(fs, Join(root, name))
    ensures r.Err? ==>
      exists i :: (0 <= i < |files|
                   && (forall g :: g in files[..i] ==> IsFile(fs, Join(Join(root, name), g)))
                   && ReadFile(fs, Join(Join(root, name), files[i])) == Err(r.error))
    ensures r.Ok? ==> StoredUpTo(fs, root, name, files, |files|, cat, cat')
  {
    var componentPath := Join(root, name);
    cat' := cat;
    for j := 0 to |files|
      invariant StoredUpTo(fs, root, name, files, j, cat, cat')
      invariant forall f :: f in files[..j] ==> IsFile(fs, Join(componentPath, f))
    {
      var scssFileName := files[j];
      assert files[..j + 1] == files[..j] + [scssFileName];
      var scssRaw := ReadFile(fs, Join(componentPath, scssFileName));
      if scssRaw.Err? {
        assert scssFileName in files && !IsFile(fs, Join(componentPath, scssFileName));
        assert ReadFile(fs, Join(componentPath, files[j])) == Err(scssRaw.error);
        return Err(scssRaw.error), cat';
      }
      StoreStep(fs, root, name, files, j, cat, cat');
      cat' := SetPath(cat', name, scssFileName, scssRaw.value);
    }
    assert files[..|files|] == files;
    return Ok(()), cat';
  }

  /** The catalog is determined by the snapshot: two catalogs of the same
      listing agree on every key, inner key and text. */
  lemma ComponentCatalogUnique(fs: Snapshot, root: Path, names: seq<string>, c1: Catalog, c2: Catalog)
    requires IsComponentCatalog(fs, root, names, c1) && IsComponentCatalog(fs, root, names, c2)
    ensures c1 == c2
  {
    assert c1.Keys == c2.Keys;
    forall k | k in c1 ensures c1[k] == c2[k] {
      assert c1[k].Keys == c2[k].Keys;
    }
  }

  // --------------------------------------------------------------------- theme

  /** The theme whitelist, in the order the source lists it. */
  const ThemeFileList: seq<string> :=
    ["_font.scss", "_palette.scss", "global.scss", "index.scss", "local.scss", "mixin.scss", "variables.scss"]

  /** The first segment of each whitelisted name's lodash path. */
  const ThemeKeys: seq<string> := ["_font", "_palette", "global", "index", "local", "mixin", "variables"]

  /** Where the theme loop probes for a name: `<themePath>/scss/<name>`. */
  function ThemeProbe(themePath: Path, name: string): Path
  {
    Join(Join(themePath, "scss"), name)
  }

  /** Where the theme loop reads a name from: `<themePath>/<name>`. */
  function ThemeSource(themePath: Path, name: string): Path
  {
    Join(themePath, name)
  }

  /** The name passes the existence probe. */
  predicate Probed(fs: Snapshot, themePath: Path, name: string)
  {
    Exists(fs, ThemeProbe(themePath, name))
  }

  /** Some listed name passes the probe but has no readable source file. */
  ghost predicate SomeThemeFileUnreadable(fs: Snapshot, themePath: Path, names: seq<string>)
  {
    exists name :: name in names && Probed(fs, themePath, name) && !IsFile(fs, ThemeSource(themePath, name))
  }

  ghost predicate ThemeUnreadable(fs: Snapshot, themePath: Path)
  {
    SomeThemeFileUnreadable(fs, themePath, ThemeFileList)
  }

  /** The theme catalog after the first n names of a whitelist whose lodash
      stems are `keys`: a key for exactly the probed names, each holding
      `{scss: <text of the source file>}`. */
  ghost predicate ThemeCatalogUpTo(fs: Snapshot, themePath: Path, names: seq<string>, keys: seq<string>, n: nat, cat: Catalog)
    requires n <= |names| == |keys|
  {
    && (forall k :: k in cat <==> exists i :: 0 <= i < n && keys[i] == k && Probed(fs, themePath, names[i]))
    && (forall i :: 0 <= i < n && Probed(fs, themePath, names[i]) ==>
          keys[i] in cat && cat[keys[i]] == map["scss" := Content(fs, ThemeSource(themePath, names[i]))])
  }

  /** The theme catalog of the whitelist. */
  ghost predicate IsThemeCatalog(fs: Snapshot, themePath: Path, cat: Catalog)
  {
    && |ThemeKeys| == |ThemeFileList|
    && ThemeCatalogUpTo(fs, themePath, ThemeFileList, ThemeKeys, |ThemeFileList|, cat)
  }

  /** No two positions hold the same key. */
  ghost predicate DistinctKeys(keys: seq<string>)
  {
    forall i, j :: 0 <= i < j < |keys| ==> keys[i] != keys[j]
  }

  /** `'a.b'.split('.')` style path of a dotted string key: a name made of
      a dot-free stem, one dot and a dot-free extension is a two-step path. */
  lemma SplitAtDotsStemExt(stem: string, ext: string)
    requires '.' !in stem && '.' !in ext
    ensures SplitAtDots(stem + "." + ext) == [stem, ext]
  {
    var s := stem + "." + ext;
    forall j | 0 <= j < |stem| ensures !OccursAt(s, ".", j) {
      assert s[j] == stem[j];
      assert s[j..j + 1] == [s[j]];
    }
    assert OccursAt(s, ".", |stem|) by {
      assert s[|stem|..|stem| + 1] == ".";
    }
    assert FirstOccurrence(s, ".", 0) == |stem|;
    assert s[..|stem|] == stem;
    assert s[|stem| + 1..] == ext;
    forall j | 0 <= j < |ext| ensures !OccursAt(ext, ".", j) {
      assert ext[j..j + 1] == [ext[j]];
    }
    assert FirstOccurrence(ext, ".", 0) == |ext|;
  }

  /** Every whitelisted name is its stem followed by `.scss`, and no stem holds a dot. */
  lemma ThemeNamesAreStems()
    ensures |ThemeKeys| == |ThemeFileList|
    ensures forall i :: 0 <= i < |ThemeFileList| ==> ThemeFileList[i] == ThemeKeys[i] + "." + "scss"
    ensures forall i :: 0 <= i < |ThemeKeys| ==> '.' !in ThemeKeys[i]
  {
  }

  /** The seven stems are distinct, so no name overwrites another's entry. */
  lemma ThemeStemsDistinct()
    ensures |ThemeKeys| == |ThemeFileList|
    ensures DistinctKeys(ThemeKeys)
  {
    forall i, j | 0 <= i < j < |ThemeKeys| ensures ThemeKeys[i] != ThemeKeys[j] {
      assert ThemeKeys[i][0] != ThemeKeys[j][0] || ThemeKeys[i][1] != ThemeKeys[j][1];
    }
  }

  /** lodash parses the i-th whitelisted name as the path [stem, "scss"]. */
  lemma ThemeDottedPath(i: nat)
    requires i < |ThemeFileList|
    ensures i < |ThemeKeys| && SplitAtDots(ThemeFileList[i]) == [ThemeKeys[i], "scss"]
  {
    ThemeNamesAreStems();
    SplitAtDotsStemExt(ThemeKeys[i], "scss");
  }

  /** One probed name extends the theme catalog by its stem. */
  lemma ThemeStepProbed(fs: Snapshot, themePath: Path, names: seq<string>, keys: seq<string>, i: nat, cat: Catalog, text: string)
    requires i < |names| == |keys| && DistinctKeys(keys)
    requires Probed(fs, themePath, names[i])
    requires ThemeCatalogUpTo(fs, themePath, names, keys, i, cat)
    requires text == Content(fs, ThemeSource(themePath, names[i]))
    ensures keys[i] !in cat
    ensures ThemeCatalogUpTo(fs, themePath, names, keys, i + 1, cat[keys[i] := map["scss" := text]])
  {
    var key := keys[i];
    var cat' := cat[key := map["scss" := text]];
    ThemeStepKeys(fs, themePath, names, keys, i, cat);
    forall j | 0 <= j < i + 1 && Probed(fs, themePath, names[j])
      ensures keys[j] in cat' && cat'[keys[j]] == map["scss" := Content(fs, ThemeSource(themePath, names[j]))]
    {
      if j < i {
        assert keys[j] != key;
      }
    }
  }

  /** Setting a path under a new outer key creates a one-entry object. */
  lemma SetPathFresh(cat: Catalog, outer: string, inner: string, value: string)
    requires outer !in cat
    ensures SetPath(cat, outer, inner, value) == cat[outer := map[inner := value]]
  {
  }

  /** The keys after a probed name: the earlier ones and its stem. */
  lemma ThemeStepKeys(fs: Snapshot, themePath: Path, names: seq<string>, keys: seq<string>, i: nat, cat: Catalog)
    requires i < |names| == |keys| && Probed(fs, themePath, names[i])
    requires forall k :: k in cat <==> exists j :: 0 <= j < i && keys[j] == k && Probed(fs, themePath, names[j])
    ensures forall k :: k in cat.Keys + {keys[i]} <==> exists j :: 0 <= j < i + 1 && keys[j] == k && Probed(fs, themePath, names[j])
  {
    forall k ensures k in cat.Keys + {keys[i]} <==> exists j :: 0 <= j < i + 1 && keys[j] == k && Probed(fs, themePath, names[j]) {
      if k == keys[i] {
        assert 0 <= i < i + 1;
      } else if k in cat {
        var j :| 0 <= j < i && keys[j] == k && Probed(fs, themePath, names[j]);
        assert 0 <= j < i + 1;
      }
    }
  }

  /** A name that fails the probe leaves the theme catalog as it is. */
  lemma ThemeStepSkipped(fs: Snapshot, themePath: Path, names: seq<string>, keys: seq<string>, i: nat, cat: Catalog)
    requires i < |names| == |keys| && !Probed(fs, themePath, names[i])
    requires ThemeCatalogUpTo(fs, themePath, names, keys, i, cat)
    ensures ThemeCatalogUpTo(fs, themePath, names, keys, i + 1, cat)
  {
    forall k ensures k in cat <==> exists j :: 0 <= j < i + 1 && keys[j] == k && Probed(fs, themePath, names[j]) {
      if k in cat {
        var j :| 0 <= j < i && keys[j] == k && Probed(fs, themePath, names[j]);
        assert 0 <= j < i + 1;
      }
    }
  }

  /** A whitelist whose every probed name has a source file is readable. */
  lemma ThemeReadable(fs: Snapshot, themePath: Path, names: seq<string>)
    requires forall j :: 0 <= j < |names| && Probed(fs, themePath, names[j]) ==> IsFile(fs, ThemeSource(themePath, names[j]))
    ensures !SomeThemeFileUnreadable(fs, themePath, names)
  {
    forall name | name in names && Probed(fs, themePath, name) ensures IsFile(fs, ThemeSource(themePath, name)) {
      var j :| 0 <= j < |names| && names[j] == name;
    }
  }

  /** lodash parses each whitelisted name as the path [stem, "scss"]. */
  lemma ThemeDottedPaths()
    ensures |ThemeKeys| == |ThemeFileList|
    ensures forall i :: 0 <= i < |ThemeFileList| ==> SplitAtDots(ThemeFileList[i]) == [ThemeKeys[i], "scss"]
  {
    forall i | 0 <= i < |ThemeFileList| ensures SplitAtDots(ThemeFileList[i]) == [ThemeKeys[i], "scss"] {
      ThemeDottedPath(i);
    }
  }

  /** generateThemeScssMap: for each whitelisted name, in order, probe
      `<themePath>/scss/<name>`; when it exists, read `<themePath>/<name>`
      (readFileSync throws when that is not a file) and store the text with
      `lodash.set` under the dotted name, that is at [stem, "scss"]. */
  method GenerateThemeScssMap(fs: Snapshot, themePath: Path) returns (r: Result<Catalog, FsError>)
    ensures r.Err? <==> ThemeUnreadable(fs, themePath)
    ensures r.Err? ==>
              exists name :: (name in ThemeFileList && Probed(fs, themePath, name) &&
                              ReadFile(fs, ThemeSource(themePath, name)) == Err(r.error))
    ensures r.Ok? ==> IsThemeCatalog(fs, themePath, r.value)
  {
    ThemeStemsDistinct();
    ThemeDottedPaths();
    r := StoreWhitelist(fs, themePath, ThemeFileList, ThemeKeys);
  }

  /** The loop of generateThemeScssMap over a whitelist `fileList` whose
      names lodash parses as [keys[i], "scss"]. */
  method StoreWhitelist(fs: Snapshot, themePath: Path, fileList: seq<string>, keys: seq<string>)
    returns (r: Result<Catalog, FsError>)
    requires |fileList| == |keys| && DistinctKeys(keys)
    requires forall i :: 0 <= i < |fileList| ==> SplitAtDots(fileList[i]) == [keys[i], "scss"]
    ensures r.Err? <==> SomeThemeFileUnreadable(fs, themePath, fileList)
    ensures r.Err? ==>
              exists name :: (name in fileList && Probed(fs, themePath, name) &&
                              ReadFile(fs, ThemeSource(themePath, name)) == Err(r.error))
    ensures r.Ok? ==> ThemeCatalogUpTo(fs, themePath, fileList, keys, |fileList|, r.value)
  {
    var themeScssMap: Catalog := map[];
    for i := 0 to |fileList|
      invariant ThemeCatalogUpTo(fs, themePath, fileList, keys, i, themeScssMap)
      invariant forall j :: 0 <= j < i && Probed(fs, themePath, fileList[j]) ==> IsFile(fs, ThemeSource(themePath, fileList[j]))
    {
      var fileName := fileList[i];
      var scssAbsolutePath := ThemeProbe(themePath, fileName);
      if Exists(fs, scssAbsolutePath) {
        var absolutePath := ThemeSource(themePath, fileName);
        var scssRaw := ReadFile(fs, absolutePath);
        if scssRaw.Err? {
          return Err(scssRaw.error);
        }
        var path := SplitAtDots(fileName);
        ThemeStepProbed(fs, themePath, fileList, keys, i, themeScssMap, scssRaw.value);
        SetPathFresh(themeScssMap, keys[i], "scss", scssRaw.value);
        ghost var before := themeScssMap;
        themeScssMap := SetPath(themeScssMap, path[0], path[1], scssRaw.value);
        assert themeScssMap == before[keys[i] := map["scss" := scssRaw.value]];
        assert IsFile(fs, absolutePath);
        assert ThemeCatalogUpTo(fs, themePath, fileList, keys, i + 1, themeScssMap);
        forall j | 0 <= j < i + 1 && Probed(fs, themePath, fileList[j]) ensures IsFile(fs, ThemeSource(themePath, fileList[j])) {
          if j == i {
            assert fileList[j] == fileName;
          }
        }
      } else {
        ThemeStepSkipped(fs, themePath, fileList, keys, i, themeScssMap);
      }
    }
    ThemeReadable(fs, themePath, fileList);
    return Ok(themeScssMap);
  }

  /** The two catalogs generateScssMap returns. */
  datatype ScssMaps = ScssMaps(components: Catalog, theme: Catalog)

  /** generateScssMap: the component catalog of the foundation directory and
      the theme catalog of the theme directory; an error in either is
      thrown, the component one first. */
  method GenerateScssMap(fs: Snapshot, foundationPath: Path, themePath: Path) returns (r: Result<ScssMaps, FsError>)
    ensures r.Err? <==>
              (!IsDir(fs, foundationPath) || SomeComponentUnreadable(fs, foundationPath, Entries(fs, foundationPath))) || ThemeUnreadable(fs, themePath)
    ensures r.Ok? ==> IsComponentCatalog(fs, foundationPath, Entries(fs, foundationPath), r.value.components)
    ensures r.Ok? ==> IsThemeCatalog(fs, themePath, r.value.theme)
  {
    var components := GenerateComponentsScssMap(fs, foundationPath);
    if components.Err? {
      return Err(components.error);
    }
    var theme := GenerateThemeScssMap(fs, themePath);
    if theme.Err? {
      return Err(theme.error);
    }
    return Ok(ScssMaps(components.value, theme.value));
  }
}
