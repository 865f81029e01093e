/**
  WebBalaFileSystem: the file system object the web-bala paths belong to.
  Its only state is whether it is open; every other query is a constant, and
  getPath joins its arguments into a path of this file system without
  looking at that state.
 */
module WebBalaFileSystem {
  import opened Wrappers
  import opened WebBalaPath
  import PathLaws
  import S = JavaString

  /** The identity of a WebBalaFileSystemProvider object. */
  type ProviderId = nat

  /**
    A file system object: its own identity, the provider that created it, and
    whether it is still open.
   */
  datatype FileSystem = FileSystem(id: FsId, provider: ProviderId, open: bool)

  /** `new WebBalaFileSystem(provider)`, given the identity the new object receives. */
  function New(id: FsId, provider: ProviderId): (r: FileSystem)
    ensures r.id == id && r.provider == provider
    ensures IsOpen(r)
  {
    FileSystem(id, provider, true)
  }

  /** `provider()` */
  function Provider(fs: FileSystem): ProviderId {
    fs.provider
  }

  /** `isOpen()` */
  predicate IsOpen(fs: FileSystem) {
    fs.open
  }

  /** `close()`: clears the open flag and nothing else. */
  function Close(fs: FileSystem): (r: FileSystem)
    ensures !IsOpen(r)
    ensures r.id == fs.id && Provider(r) == Provider(fs)
  {
    fs.(open := false)
  }

  /** `isReadOnly()`: the flag is fixed at false. */
  predicate IsReadOnly(fs: FileSystem) {
    false
  }

  /** `getSeparator()` */
  function GetSeparator(fs: FileSystem): string {
    [S.Slash]
  }

  /** `supportedFileAttributeViews()` */
  function SupportedFileAttributeViews(fs: FileSystem): set<string> {
    {"basic"}
  }

  /** A file store; the file system has none. */
  datatype FileStore = FileStore(name: string)

  /** `getFileStores()` */
  function GetFileStores(fs: FileSystem): seq<FileStore> {
    []
  }

  /** `getRootDirectories()` */
  function GetRootDirectories(fs: FileSystem): seq<Path> {
    [Path(fs.id, GetSeparator(fs))]
  }

  /**
    `getPath(first, more...)`: `first` alone when there are no further
    segments, otherwise `first`, the separator, and the further segments
    joined by the separator.
   */
  function GetPath(fs: FileSystem, first: string, more: seq<string>): (r: Path)
    ensures r.fs == fs.id
    ensures S.StartsWith(r.str, first)
  {
    if |more| > 0 then Path(fs.id, first + GetSeparator(fs) + S.Join(more)) else Path(fs.id, first)
  }

  /** Closing twice is closing once. */
  lemma CloseIdempotent(fs: FileSystem)
    ensures Close(Close(fs)) == Close(fs)
  {
  }

  /** The fixed answers: separator `/`, writable, only the basic attribute view, no file stores. */
  lemma ConstantQueries(fs: FileSystem)
    ensures GetSeparator(fs) == "/" && !IsReadOnly(fs)
    ensures SupportedFileAttributeViews(fs) == {"basic"} && |GetFileStores(fs)| == 0
  {
  }

  /** getPath is `String.join` of the first segment and the further ones. */
  lemma GetPathIsJoin(fs: FileSystem, first: string, more: seq<string>)
    ensures GetPath(fs, first, more).str == S.Join([first] + more)
  {
    if |more| > 0 {
      assert ([first] + more)[1..] == more;
    }
  }

  /**
    getPath of non-empty slash-free segments has exactly those segments as
    its names, in order.
   */
  lemma GetPathNames(fs: FileSystem, first: string, more: seq<string>)
    requires first != "" && S.Slash !in first
    requires forall i :: 0 <= i < |more| ==> more[i] != "" && S.Slash !in more[i]
    ensures var p := GetPath(fs, first, more);
      && !IsAbsolute(p)
      && GetNameCount(p) == 1 + |more|
      && GetName(p, 0) == Ok(Path(fs.id, first))
      && forall i :: 0 <= i < |more| ==> GetName(p, i + 1) == Ok(Path(fs.id, more[i]))
  {
    var xs := [first] + more;
    GetPathIsJoin(fs, first, more);
    assert forall i :: 0 <= i < |more| ==> xs[i + 1] == more[i];
    PathLaws.NamesOfJoin(xs);
  }

  /** getPath does not look at the open flag: a closed file system builds the same paths. */
  lemma GetPathIgnoresOpen(fs: FileSystem, first: string, more: seq<string>)
    ensures GetPath(Close(fs), first, more) == GetPath(fs, first, more)
  {
  }

  /**
    The one root directory is the root of every absolute path of this file
    system: absolute, normalized, with no names, parent or file name.
   */
  lemma RootDirectoryIsRoot(fs: FileSystem, p: Path)
    requires p.fs == fs.id && IsAbsolute(p)
    ensures |GetRootDirectories(fs)| == 1
    ensures GetRoot(p) == Some(GetRootDirectories(fs)[0])
    ensures var root := GetRootDirectories(fs)[0];
      && IsAbsolute(root) && Normalize(root) == root
      && GetNameCount(root) == 0 && GetParent(root).None? && GetFileName(root).None?
  {
    var root := GetRootDirectories(fs)[0];
    assert root.str == "/";
    assert S.Split("/") == [] by {
      assert S.Pieces("/") == [""] + S.Pieces("");
    }
  }
}
