/**
  WebBalaFileSystemProvider: the provider of the `web-bala` URI scheme. It
  keeps a registry from scheme strings to the file systems it created, and
  turns a `web-bala` URI into a path of the registered file system.

  Java's objects are shared, so a file system closed by one holder is closed
  for every other; the provider state therefore keeps the file systems in a
  heap indexed by identity, and the registry maps schemes to identities.
 */
module WebBalaFileSystemProvider {
  import opened Wrappers
  import opened WebBalaPath
  import opened WebBalaFileSystem
  import PathLaws
  import S = JavaString

  /** The scheme this provider serves. */
  const Scheme: string := "web-bala"

  /**
    A URI as far as the provider reads it: its scheme and its path as
    `URI.getPath()` returns it, which a URI may lack. `ToUri` fills the path
    with a path's absolute text before any URI parsing.
   */
  datatype Uri = Uri(scheme: string, path: Option<string>)

  /**
    The provider: its own identity, the base directory it was given (as its
    text), the registry, the heap of file systems it created, and the
    identity the next file system will receive.
   */
  datatype ProviderState = ProviderState(
    self: ProviderId,
    baseDir: string,
    fileSystems: map<string, FsId>,
    heap: map<FsId, FileSystem>,
    nextId: FsId)

  /**
    Every registered identity names a file system in the heap; every file
    system in the heap carries its own identity, was created by this
    provider, and has an identity below the next one.
   */
  ghost predicate Valid(st: ProviderState) {
    && (forall s :: s in st.fileSystems ==> st.fileSystems[s] in st.heap)
    && (forall id :: id in st.heap ==> st.heap[id].id == id && st.heap[id].provider == st.self && id < st.nextId)
  }

  /** `new WebBalaFileSystemProvider(tempDir)`: no file system is registered yet. */
  function Create(self: ProviderId, tempDir: string): (r: ProviderState)
    ensures Valid(r)
    ensures GetBaseDir(r) == tempDir && r.self == self
    ensures forall uri: Uri :: GetFileSystem(r, uri) == Err(FileSystemNotFound)
  {
    ProviderState(self, tempDir, map[], map[], 0)
  }

  /** `getBaseDir()` */
  function GetBaseDir(st: ProviderState): string {
    st.baseDir
  }

  /** `getScheme()` */
  function GetScheme(st: ProviderState): (r: string)
    ensures r == "web-bala"
  {
    Scheme
  }

  /**
    `newFileSystem(uri, env)`: a new, open file system of this provider,
    registered under the URI's exact scheme in place of any earlier one. The
    file systems already created are left as they are: one displaced from
    the registry stays open for whoever holds it.
   */
  function NewFileSystem(st: ProviderState, uri: Uri): (r: (ProviderState, FileSystem))
    requires Valid(st)
    ensures var (st', fs) := r;
      && Valid(st')
      && IsOpen(fs) && Provider(fs) == st.self
      && fs.id !in st.heap
      && GetFileSystem(st', uri) == Ok(fs)
      && (forall other: Uri :: other.scheme != uri.scheme ==> GetFileSystem(st', other) == GetFileSystem(st, other))
      && GetBaseDir(st') == GetBaseDir(st) && st'.self == st.self
      && fs.id == st.nextId && st'.nextId == st.nextId + 1
      && st'.heap.Keys == st.heap.Keys + {fs.id} && st'.heap[fs.id] == fs
      && (forall id :: id in st.heap ==> st'.heap[id] == st.heap[id])
  {
    var fs := New(st.nextId, st.self);
    var st' := st.(
      fileSystems := st.fileSystems[uri.scheme := fs.id],
      heap := st.heap[fs.id := fs],
      nextId := st.nextId + 1);
    (st', fs)
  }

  /**
    `getFileSystem(uri)`: the file system registered under the URI's exact
    scheme; FileSystemNotFoundException when there is none.
   */
  function GetFileSystem(st: ProviderState, uri: Uri): (r: Result<FileSystem>)
    ensures r.Ok? <==> uri.scheme in st.fileSystems && st.fileSystems[uri.scheme] in st.heap
    ensures r.Err? ==> r.error == FileSystemNotFound
    ensures r.Ok? ==> r.value == st.heap[st.fileSystems[uri.scheme]]
  {
    if uri.scheme in st.fileSystems && st.fileSystems[uri.scheme] in st.heap then
      Ok(st.heap[st.fileSystems[uri.scheme]])
    else Err(FileSystemNotFound)
  }

  /** Closing file system `id`, as seen by everyone holding it. */
  function CloseFileSystem(st: ProviderState, id: FsId): (r: ProviderState)
    requires Valid(st) && id in st.heap
    ensures Valid(r)
    ensures r.fileSystems == st.fileSystems && r.heap.Keys == st.heap.Keys
    ensures !IsOpen(r.heap[id]) && r.heap[id].id == id
    ensures forall other :: other in st.heap && other != id ==> r.heap[other] == st.heap[other]
    ensures r.self == st.self && r.baseDir == st.baseDir && r.nextId == st.nextId
    ensures r.heap[id].provider == st.heap[id].provider
  {
    st.(heap := st.heap[id := Close(st.heap[id])])
  }

  /** Whether a URI path stands for the root: missing, empty or a single slash. */
  predicate IsRootUriPath(path: Option<string>) {
    path.None? || path.value == "" || path.value == "/"
  }

  /**
    `getPath(uri)`: the scheme must equal `web-bala` up to case
    (IllegalArgumentException), checked before the registry lookup
    (FileSystemNotFoundException). A missing, empty or `/` path gives the
    root; any other path is decoded by `decode` (URLDecoder.decode) and loses
    one leading slash.
   */
  function GetPath(st: ProviderState, uri: Uri, decode: string -> string): (r: Result<Path>)
    ensures r == Err(IllegalArgument) <==> !S.EqualsIgnoreCase(uri.scheme, GetScheme(st))
    ensures r == Err(FileSystemNotFound) <==> S.EqualsIgnoreCase(uri.scheme, GetScheme(st)) && GetFileSystem(st, uri).Err?
    ensures r.Ok? ==> r.value.fs == GetFileSystem(st, uri).value.id
    ensures r.Ok? && IsRootUriPath(uri.path) ==> r.value.str == "/"
    ensures r.Ok? && !IsRootUriPath(uri.path) ==>
      var d := decode(uri.path.value);
      if S.StartsWith(d, "/") then d == "/" + r.value.str else d == r.value.str
  {
    if !S.EqualsIgnoreCase(uri.scheme, GetScheme(st)) then Err(IllegalArgument)
    else
      match GetFileSystem(st, uri)
      case Err(e) => Err(e)
      case Ok(fs) =>
        if IsRootUriPath(uri.path) then Ok(Path(fs.id, "/"))
        else
          var decoded := decode(uri.path.value);
          Ok(Path(fs.id, if S.StartsWith(decoded, "/") then decoded[1..] else decoded))
  }

  /**
    The URI `toUri()` builds for a path: this provider's scheme and the path's
    absolute form, as the path text before `URI.create` parses it.
   */
  function ToUri(p: Path): (r: Uri)
    ensures r.scheme == Scheme && r.path == Some(ToAbsolutePath(p).str)
  {
    Uri(Scheme, Some(ToAbsolutePath(p).str))
  }

  /** A provider created with `tempDir` with one file system registered under `scheme`. */
  function WithOneFileSystem(self: ProviderId, tempDir: string, scheme: string): (r: (ProviderState, FileSystem))
    ensures Valid(r.0)
  {
    NewFileSystem(Create(self, tempDir), Uri(scheme, None))
  }

  /**
    Registering twice under one scheme: the second file system replaces the
    first in the registry, while the first stays in the heap, open.
   */
  lemma LastRegistrationWins(st: ProviderState, u1: Uri, u2: Uri)
    requires Valid(st) && u1.scheme == u2.scheme
    ensures var (st1, fs1) := NewFileSystem(st, u1);
      var (st2, fs2) := NewFileSystem(st1, u2);
      && GetFileSystem(st2, u1) == Ok(fs2) && fs1 != fs2
      && fs1.id in st2.heap && st2.heap[fs1.id] == fs1 && IsOpen(st2.heap[fs1.id])
  {
  }

  /** `web-bala:///src/test.bala` is the relative path `src/test.bala` of the registered file system. */
  lemma GetPathExample(self: ProviderId, tempDir: string, decode: string -> string)
    requires decode("/src/test.bala") == "/src/test.bala"
    ensures var (st, fs) := WithOneFileSystem(self, tempDir, Scheme);
      GetPath(st, Uri(Scheme, Some("/src/test.bala")), decode) == Ok(Path(fs.id, "src/test.bala"))
  {
    var (st, fs) := WithOneFileSystem(self, tempDir, Scheme);
    assert S.EqualsIgnoreCase(Scheme, Scheme);
    assert "/src/test.bala"[1..] == "src/test.bala";
  }

  /** The root URI paths all give the root path. */
  lemma GetPathRoot(self: ProviderId, tempDir: string, decode: string -> string, path: Option<string>)
    requires IsRootUriPath(path)
    ensures var (st, fs) := WithOneFileSystem(self, tempDir, Scheme);
      GetPath(st, Uri(Scheme, path), decode) == Ok(Path(fs.id, "/"))
  {
    var (st, fs) := WithOneFileSystem(self, tempDir, Scheme);
    assert S.EqualsIgnoreCase(Scheme, Scheme);
  }

  /**
    The scheme test ignores case but the registry does not: `WEB-BALA` passes
    the test and then finds nothing registered under that exact string.
   */
  lemma GetPathLooksUpExactScheme(self: ProviderId, tempDir: string, decode: string -> string)
    ensures var (st, fs) := WithOneFileSystem(self, tempDir, Scheme);
      GetPath(st, Uri("WEB-BALA", Some("/a")), decode) == Err(FileSystemNotFound)
  {
    assert S.EqualsIgnoreCase("WEB-BALA", Scheme) by {
      forall i | 0 <= i < 8 ensures S.CharEqualsIgnoreCase("WEB-BALA"[i], Scheme[i]) {
        assert S.ToLowerAscii(S.ToUpperAscii("WEB-BALA"[i])) == S.ToLowerAscii(S.ToUpperAscii(Scheme[i]));
      }
    }
  }

  /**
    The scheme is checked before the registry: a URI of another scheme is
    refused even when a file system is registered under that scheme.
   */
  lemma GetPathChecksSchemeFirst(self: ProviderId, tempDir: string, decode: string -> string)
    ensures var (st, fs) := WithOneFileSystem(self, tempDir, "file");
      GetFileSystem(st, Uri("file", None)) == Ok(fs)
      && GetPath(st, Uri("file", Some("/a")), decode) == Err(IllegalArgument)
  {
    assert !S.EqualsIgnoreCase("file", Scheme);
  }

  /** Closing a file system does not change the paths getPath hands out for it. */
  lemma GetPathAfterClose(st: ProviderState, id: FsId, uri: Uri, decode: string -> string)
    requires Valid(st) && id in st.heap
    ensures GetPath(CloseFileSystem(st, id), uri, decode) == GetPath(st, uri, decode)
  {
    var st' := CloseFileSystem(st, id);
    if uri.scheme in st.fileSystems {
      assert st'.heap[st.fileSystems[uri.scheme]].id == st.heap[st.fileSystems[uri.scheme]].id;
    }
  }

  /**
    A character that section 3.3 of RFC 3986 allows in a URI path as itself
    (an unreserved character, a sub-delimiter, `:`, `@` or the separator).
    A text made of these alone is parsed by `URI.create` into a path that
    `URI.getPath()` returns unchanged: no `?` or `#` ends it early, and no `%`
    escape is decoded.
   */
  predicate IsPlainUriPathChar(c: char) {
    || 'a' <= c <= 'z' || 'A' <= c <= 'Z' || '0' <= c <= '9'
    || c in "-._~!$&'()*+,;=:@/"
  }

  /**
    getPath reads back what toUri writes: for a path of the file system
    registered under `web-bala` whose text is made of plain URI path
    characters, and a decoder that leaves the path text alone, resolving the
    result against the root gives a path equal to the absolute form.
   */
  lemma GetPathOfToUri(st: ProviderState, p: Path, decode: string -> string)
    requires Valid(st) && Scheme in st.fileSystems && st.fileSystems[Scheme] == p.fs
    requires forall i :: 0 <= i < |p.str| ==> IsPlainUriPathChar(p.str[i])
    requires decode(ToAbsolutePath(p).str) == ToAbsolutePath(p).str
    ensures GetPath(st, ToUri(p), decode).Ok?
    ensures Equals(Resolve(Path(p.fs, "/"), GetPath(st, ToUri(p), decode).value), ToAbsolutePath(p))
  {
    assert S.EqualsIgnoreCase(Scheme, Scheme);
    var a := ToAbsolutePath(p);
    var r := GetPath(st, ToUri(p), decode).value;
    assert r.fs == p.fs;
    if a.str != "/" {
      assert a.str == "/" + r.str;
      if IsAbsolute(r) {
        PathLaws.PiecesUnderRoot(r.str);
        PathLaws.NormFromSkipsEmptyAtFront([], S.Pieces(r.str));
        PathLaws.NormalizeText(a);
        PathLaws.NormalizeText(r);
      } else {
        assert S.EndsWith("/", "/");
      }
    }
  }
}
