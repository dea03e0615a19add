/** A snapshot of the filesystem, standing for the fs-extra and path calls
    the source makes (readdir, readdirSync, existsSync, statSync,
    readFileSync, path.join). Paths are the exact strings the code builds;
    two spellings of one file are two keys. */
module FileSystem {
  import opened Results

  type Path = string

  datatype Node = File(content: string) | Dir(entries: seq<string>)

  datatype Snapshot = Snapshot(nodes: map<Path, Node>)

  /** The errors fs raises: ENOENT, ENOTDIR and EISDIR. */
  datatype FsError = NoEntry(path: Path) | NotADirectory(path: Path) | IsADirectory(path: Path)

  /** existsSync, and statSync not throwing. */
  predicate Exists(fs: Snapshot, p: Path)
  {
    p in fs.nodes
  }

  /** statSync(p).isFile() for a path that exists. */
  predicate IsFile(fs: Snapshot, p: Path)
  {
    p in fs.nodes && fs.nodes[p].File?
  }

  /** statSync(p).isDirectory() for a path that exists. */
  predicate IsDir(fs: Snapshot, p: Path)
  {
    p in fs.nodes && fs.nodes[p].Dir?
  }

  /** The names readdir lists for a directory, in listing order; none for anything else. */
  function Entries(fs: Snapshot, p: Path): seq<string>
  {
    if IsDir(fs, p) then fs.nodes[p].entries else []
  }

  /** The text of a file, empty for anything else. */
  function Content(fs: Snapshot, p: Path): string
  {
    if IsFile(fs, p) then fs.nodes[p].content else ""
  }

  /** readdir / readdirSync: the listing, or the error it throws. */
  function ReadDir(fs: Snapshot, p: Path): Result<seq<string>, FsError>
  {
    if p !in fs.nodes then Err(NoEntry(p))
    else if fs.nodes[p].File? then Err(NotADirectory(p))
    else Ok(fs.nodes[p].entries)
  }

  /** readFileSync: the text, or the error it throws. */
  function ReadFile(fs: Snapshot, p: Path): Result<string, FsError>
  {
    if p !in fs.nodes then Err(NoEntry(p))
    else if fs.nodes[p].Dir? then Err(IsADirectory(p))
    else Ok(fs.nodes[p].content)
  }

  /** path.join(a, b) for one plain name b: one separator between the two parts. */
  function Join(a: Path, b: string): Path
  {
    if a == "" then b
    else if a[|a| - 1] == '/' then a + b
    else a + "/" + b
  }
}
