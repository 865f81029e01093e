/**
  WebBalaPath: a path of the web-bala virtual file system. A path is the
  identity of the file system it belongs to plus the raw text it was built
  from; every operation is a computation on that text, and nothing is
  canonicalised when a path is constructed.
 */
module WebBalaPath {
  import opened Wrappers
  import S = JavaString

  /** The identity of a WebBalaFileSystem object (Java compares file systems by reference). */
  type FsId = nat

  datatype Path = Path(fs: FsId, str: string)

  /** `isAbsolute()`: the text starts with a slash. */
  function IsAbsolute(p: Path): (r: bool)
    ensures r <==> |p.str| > 0 && p.str[0] == S.Slash
  {
    S.StartsWith(p.str, "/")
  }

  /** The text with one leading slash removed, if there is one. */
  function StripLeadingSlash(s: string): string {
    if S.StartsWith(s, "/") then s[1..] else s
  }

  /** The text with one trailing slash removed, if there is one. */
  function StripTrailingSlash(s: string): string {
    if S.EndsWith(s, "/") then s[..|s| - 1] else s
  }

  /** `s.isEmpty() ? new String[0] : s.split("/")` */
  function SplitOrEmpty(s: string): seq<string> {
    if s == "" then [] else S.Split(s)
  }

  /**
    The name elements of a path text, as getName, getNameCount, subpath and
    iterator compute them: one leading and one trailing slash are removed and
    the rest is split on slashes. Empty names remain wherever two slashes meet.
   */
  function Names(s: string): (r: seq<string>)
    ensures forall i :: 0 <= i < |r| ==> S.Slash !in r[i]
  {
    SplitOrEmpty(StripTrailingSlash(StripLeadingSlash(s)))
  }

  /** `getNameCount()` */
  function GetNameCount(p: Path): (r: nat)
    ensures p.str == "" || p.str == "/" ==> r == 0
    ensures r == |Names(p.str)|
  {
    if p.str == "" || p.str == "/" then 0
    else
      var t := StripTrailingSlash(StripLeadingSlash(p.str));
      if t == "" then 0 else |S.Split(t)|
  }

  /** `getName(index)`; the exception stands for IllegalArgumentException. */
  function GetName(p: Path, index: int): (r: Result<Path>)
    ensures r.Ok? <==> 0 <= index < GetNameCount(p)
    ensures r.Err? ==> r.error == IllegalArgument
    ensures r.Ok? ==> r.value == Path(p.fs, Names(p.str)[index]) && !IsAbsolute(r.value)
  {
    if p.str == "" || p.str == "/" then Err(IllegalArgument)
    else
      var parts := Names(p.str);
      if index < 0 || index >= |parts| then Err(IllegalArgument)
      else
        assert |parts[index]| > 0 ==> parts[index][0] in parts[index];
        Ok(Path(p.fs, parts[index]))
  }

  /** `iterator()`, as the list it iterates over. */
  function Iterator(p: Path): (r: seq<Path>)
    ensures |r| == GetNameCount(p)
    ensures forall i :: 0 <= i < |r| ==> GetName(p, i) == Ok(r[i])
  {
    var parts := Names(p.str);
    seq(|parts|, i requires 0 <= i < |parts| => Path(p.fs, parts[i]))
  }

  /** `getFileName()`: the text after the last slash, once a trailing slash is removed. */
  function GetFileName(p: Path): (r: Option<Path>)
    ensures r.None? <==> p.str == "" || p.str == "/"
    ensures r.Some? ==> r.value.fs == p.fs && S.Slash !in r.value.str
    ensures r.Some? ==>
      var t := StripTrailingSlash(p.str);
      var n := |r.value.str|;
      && S.EndsWith(t, r.value.str)
      && (n == |t| || t[|t| - n - 1] == S.Slash)
  {
    if p.str == "" || p.str == "/" then None
    else
      var t := StripTrailingSlash(p.str);
      var k := S.LastIndexOf(t, S.Slash);
      Some(Path(p.fs, if k >= 0 then t[k + 1..] else t))
  }

  /** `getParent()`: the text before the last slash, or the root when that slash is the first character. */
  function GetParent(p: Path): (r: Option<Path>)
    ensures r.None? <==> p.str == "" || p.str == "/" || S.Slash !in StripTrailingSlash(p.str)
    ensures r.Some? ==> r.value.fs == p.fs && S.StartsWith(p.str, r.value.str) && |r.value.str| < |p.str|
    ensures r.Some? ==>
      var t := StripTrailingSlash(p.str);
      || (r.value.str == "/" && t[0] == S.Slash && S.Slash !in t[1..])
      || (var n := |r.value.str|; 0 < n < |t| && t[..n] == r.value.str && t[n] == S.Slash && S.Slash !in t[n + 1..])
  {
    if p.str == "" || p.str == "/" then None
    else
      var t := StripTrailingSlash(p.str);
      var k := S.LastIndexOf(t, S.Slash);
      if k < 0 then None
      else Some(Path(p.fs, if k == 0 then "/" else t[..k]))
  }

  /** `getRoot()` */
  function GetRoot(p: Path): (r: Option<Path>)
    ensures r.Some? <==> IsAbsolute(p)
    ensures r.Some? ==> r.value.fs == p.fs && IsAbsolute(r.value)
    ensures r.Some? ==> GetNameCount(r.value) == 0 && GetParent(r.value).None? && GetFileName(r.value).None?
  {
    if S.StartsWith(p.str, "/") then Some(Path(p.fs, "/")) else None
  }

  /** A name that normalize keeps: non-empty, neither `.` nor `..`, and slash-free. */
  predicate Clean(x: string) {
    x != "" && x != "." && x != ".." && S.Slash !in x
  }

  /** One step of normalize's stack machine: skip empty and `.`, pop on `..` (if anything is there), else push. */
  function NormStep(stack: seq<string>, part: string): seq<string>
  {
    if part == "" || part == "." then stack
    else if part == ".." then (if |stack| > 0 then stack[..|stack| - 1] else stack)
    else stack + [part]
  }

  /** normalize's stack machine, run over `parts` from the given stack. */
  function NormFrom(stack: seq<string>, parts: seq<string>): (r: seq<string>)
    ensures
      (forall i :: 0 <= i < |stack| ==> Clean(stack[i])) &&
      (forall j :: 0 <= j < |parts| ==> S.Slash !in parts[j])
      ==> forall i :: 0 <= i < |r| ==> Clean(r[i])
    ensures |r| <= |stack| + |parts|
    decreases |parts|
  {
    if |parts| == 0 then stack
    else
      assert forall j :: 0 <= j < |parts| - 1 ==> parts[1..][j] == parts[j + 1];
      NormFrom(NormStep(stack, parts[0]), parts[1..])
  }

  /** Joined clean names never start with a slash. */
  lemma JoinCleanIsRelative(xs: seq<string>)
    requires forall i :: 0 <= i < |xs| ==> Clean(xs[i])
    ensures !S.StartsWith(S.Join(xs), "/")
  {
    if |xs| > 0 {
      S.JoinStartsWithFirst(xs);
      assert S.Join(xs)[0] == xs[0][0];
    }
  }

  /** The text of an absolute (`"/"`) or relative (`""`) root. */
  function Root(absolute: bool): string {
    if absolute then "/" else ""
  }

  /**
    `normalize()`: the slash-split text run through the stack machine, joined
    again, with a leading slash exactly when the input had one. An unmatched
    `..` is dropped, for relative paths as well as absolute ones.
   */
  function Normalize(p: Path): (r: Path)
    ensures r.fs == p.fs
    ensures IsAbsolute(r) <==> IsAbsolute(p)
  {
    var stack := NormFrom([], S.Split(p.str));
    JoinCleanIsRelative(stack);
    Path(p.fs, Root(IsAbsolute(p)) + S.Join(stack))
  }

  /** normalize as the Java method writes it: a loop over the split parts driving a deque. */
  method NormalizeLoop(p: Path) returns (r: Path)
    ensures r == Normalize(p)
  {
    var parts := S.Split(p.str);
    var stack: seq<string> := [];
    var i := 0;
    while i < |parts|
      invariant 0 <= i <= |parts|
      invariant NormFrom(stack, parts[i..]) == NormFrom([], parts)
    {
      var part := parts[i];
      assert parts[i..][1..] == parts[i + 1..];
      if part == ".." {
        if |stack| > 0 {
          stack := stack[..|stack| - 1];
        }
      } else if part != "" && part != "." {
        stack := stack + [part];
      }
      i := i + 1;
    }
    r := Path(p.fs, Root(IsAbsolute(p)) + S.Join(stack));
  }

  /** `toAbsolutePath()`: absolute paths are returned as they are, others get a leading slash. */
  function ToAbsolutePath(p: Path): (r: Path)
    ensures IsAbsolute(r) && r.fs == p.fs
    ensures IsAbsolute(p) ==> r == p
    ensures !IsAbsolute(p) ==> r.str == "/" + p.str
  {
    if IsAbsolute(p) then p else Path(p.fs, "/" + p.str)
  }

  /** `toRealPath()`: the normalized absolute path. */
  function ToRealPath(p: Path): (r: Path)
    ensures IsAbsolute(r) && r.fs == p.fs
  {
    Normalize(ToAbsolutePath(p))
  }

  /**
    `resolve(other)`: an absolute `other` wins outright; otherwise the texts
    are concatenated with a slash between them unless this text already ends
    in one, and the empty path resolves as if it were the root.
   */
  function Resolve(p: Path, other: Path): (r: Path)
    ensures IsAbsolute(other) ==> r == other
    ensures !IsAbsolute(other) ==> r.fs == p.fs
    ensures !IsAbsolute(other) ==>
      if S.EndsWith(p.str, "/") then r.str == p.str + other.str else r.str == p.str + "/" + other.str
    ensures !IsAbsolute(other) ==> (IsAbsolute(r) <==> IsAbsolute(p) || p.str == "")
  {
    if IsAbsolute(other) then other
    else if S.EndsWith(p.str, "/") then Path(p.fs, p.str + other.str)
    else if p.str == "" || p.str == "/" then Path(p.fs, "/" + other.str)
    else Path(p.fs, p.str + "/" + other.str)
  }

  /**
    `subpath(begin, end)`: the names begin..end-1 joined by slashes; the
    exception stands for IllegalArgumentException.
   */
  function Subpath(p: Path, begin: int, end: int): (r: Result<Path>)
    ensures r.Ok? <==> 0 <= begin < end <= GetNameCount(p)
    ensures r.Err? ==> r.error == IllegalArgument
    ensures r.Ok? ==> r.value.fs == p.fs && S.Pieces(r.value.str) == Names(p.str)[begin..end]
    ensures r.Ok? ==> (IsAbsolute(r.value) <==> Names(p.str)[begin] == "" && end - begin >= 2)
  {
    var parts := Names(p.str);
    if begin < 0 || end > |parts| || begin >= end then Err(IllegalArgument)
    else
      var names := parts[begin..end];
      S.PiecesJoin(names);
      S.JoinStartsWithFirst(names);
      Ok(Path(p.fs, S.Join(names)))
  }

  /** The parts relativize compares: the absolute text without its leading slash, split on slashes. */
  function RelativizeParts(p: Path): (r: seq<string>)
    ensures forall i :: 0 <= i < |r| ==> S.Slash !in r[i]
  {
    SplitOrEmpty(StripLeadingSlash(ToAbsolutePath(p).str))
  }

  /** The length of the longest common prefix of two part lists. */
  function CommonPrefixLength(a: seq<string>, b: seq<string>): (r: nat)
    ensures r <= |a| && r <= |b|
    ensures a[..r] == b[..r]
    ensures r == |a| || r == |b| || a[r] != b[r]
  {
    if |a| == 0 || |b| == 0 || a[0] != b[0] then 0
    else
      var k := CommonPrefixLength(a[1..], b[1..]);
      assert a[..k + 1] == [a[0]] + a[1..][..k];
      assert b[..k + 1] == [b[0]] + b[1..][..k];
      1 + k
  }

  /** `n` copies of `..` */
  function Parents(n: nat): (r: seq<string>)
    ensures |r| == n && forall i :: 0 <= i < n ==> r[i] == ".."
  {
    seq(n, _ => "..")
  }

  /** One append of relativize's StringBuilder: a slash goes in only when the builder is already non-empty. */
  function AppendPart(acc: string, part: string): string {
    if |acc| > 0 then acc + "/" + part else part
  }

  /** Appends every part in order, as relativize's two loops do. */
  function AppendAll(acc: string, parts: seq<string>): (r: string)
    ensures !S.StartsWith(acc, "/") && (forall i :: 0 <= i < |parts| ==> S.Slash !in parts[i])
      ==> !S.StartsWith(r, "/")
    decreases |parts|
  {
    if |parts| == 0 then acc
    else
      var next := AppendPart(acc, parts[0]);
      assert |parts[0]| > 0 ==> parts[0][0] in parts[0];
      assert forall i :: 0 <= i < |parts| - 1 ==> parts[1..][i] == parts[i + 1];
      AppendAll(next, parts[1..])
  }

  /**
    The items relativize appends, given the parts of this path and of the
    other: one `..` for each part of this path beyond the common prefix,
    then the remaining parts of the other.
   */
  function RelativizeItems(mine: seq<string>, theirs: seq<string>): (r: seq<string>)
    ensures var i := CommonPrefixLength(mine, theirs);
      && |r| == (|mine| - i) + (|theirs| - i)
      && (forall k :: 0 <= k < |mine| - i ==> r[k] == "..")
      && r[|mine| - i..] == theirs[i..]
    ensures (forall k :: 0 <= k < |theirs| ==> S.Slash !in theirs[k]) ==> forall k :: 0 <= k < |r| ==> S.Slash !in r[k]
  {
    var i := CommonPrefixLength(mine, theirs);
    var ups := Parents(|mine| - i);
    var rest := theirs[i..];
    var r := ups + rest;
    assert r[|ups|..] == rest;
    assert forall k :: 0 <= k < |ups| ==> r[k] == "..";
    assert forall k :: |ups| <= k < |r| ==> r[k] == theirs[k - |ups| + i];
    assert S.Slash !in "..";
    r
  }

  /**
    `relativize(other)`: both paths are made absolute (not normalized) and
    split, and the items are appended to an initially empty builder that
    puts a slash only between items.
   */
  function Relativize(p: Path, other: Path): (r: Path)
    ensures r.fs == p.fs
    ensures !IsAbsolute(r)
  {
    Path(p.fs, AppendAll("", RelativizeItems(RelativizeParts(p), RelativizeParts(other))))
  }

  /** `equals(obj)`: the same file system object and equal normalized texts. */
  function Equals(p: Path, q: Path): (r: bool)
    ensures r <==> Normalize(p) == Normalize(q)
    ensures r ==> IsAbsolute(p) == IsAbsolute(q)
  {
    p.fs == q.fs && Normalize(p).str == Normalize(q).str
  }

  /**
    `hashCode()`: `Objects.hash(fileSystem, normalize().toString())` in 32-bit
    arithmetic; `identityHash` is the file system object's own hash code.
   */
  function HashCode(p: Path, identityHash: FsId -> int): (r: int)
    ensures -S.TwoTo31 <= r < S.TwoTo31
  {
    S.WrapInt32(31 * S.WrapInt32(31 + identityHash(p.fs)) + S.HashCode(Normalize(p).str))
  }

  /** `compareTo(other)`: the texts compared as Java strings. */
  function CompareTo(p: Path, q: Path): (r: int)
    ensures r == 0 <==> p.str == q.str
  {
    S.CompareTo(p.str, q.str)
  }

  /** `startsWith(other)`: a textual prefix test, not a name-by-name one. */
  function StartsWith(p: Path, q: Path): (r: bool)
    ensures r <==> |q.str| <= |p.str| && p.str == q.str + p.str[|q.str|..]
  {
    S.StartsWith(p.str, q.str)
  }

  /** `endsWith(other)`: a textual suffix test, not a name-by-name one. */
  function EndsWith(p: Path, q: Path): (r: bool)
    ensures r <==> |q.str| <= |p.str| && p.str == p.str[..|p.str| - |q.str|] + q.str
  {
    S.EndsWith(p.str, q.str)
  }

  /** The text `toUri()` hands to `URI.create`: scheme, `://`, then the absolute form. */
  function ToUriString(p: Path, scheme: string): (r: string)
    ensures S.StartsWith(r, scheme + "://")
    ensures r[|scheme| + 3..] == ToAbsolutePath(p).str
  {
    scheme + "://" + (if IsAbsolute(p) then p.str else "/" + p.str)
  }
}
