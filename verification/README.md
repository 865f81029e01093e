# web-bala virtual file system, modelled in Dafny

This project models the core of a small Java NIO file-system plug-in that serves
the `web-bala` URI scheme to a language server. There are three classes:

- **WebBalaPath**: a path is a file-system identity plus the raw text it was
  built from. Every path operation is a computation on that text. Only equals,
  hashCode and toRealPath normalize it first; the others work on the raw text:
  - normalize;
  - name access (getNameCount, getName, iterator);
  - getParent, getFileName, getRoot;
  - resolve, relativize, subpath;
  - toAbsolutePath, toRealPath;
  - equals, hashCode, compareTo, startsWith, endsWith.
- **WebBalaFileSystemProvider**: a registry from scheme strings to the file
  systems it created, plus `getPath(URI)`. That method checks the scheme,
  looks up the file system, special-cases the root and strips one leading slash.
- **WebBalaFileSystem**: an open/closed flag, the joining of path segments, and
  a few fixed answers: the separator `/`, writable, one root, the `basic`
  attribute view, and no file stores.

How the pieces are modelled:

- Everything is a pure function over immutable datatypes. Strings are
  `seq<char>`.
- Java's `String.split("/")` is modelled exactly (`JavaString.Split`):
  - interior empty strings are kept;
  - trailing empty strings are removed;
  - a text without a slash, including `""`, splits to itself.
  
  The name-count and name-index results depend on this.
- normalize is a stack machine (`WebBalaPath.NormFrom`) that runs over the split
  parts. A loop version that drives a deque, as the Java does, is proved equal to it.
- A file system's object identity is a number. The provider state keeps a heap
  from identities to file-system records, so a close is seen by every holder
  of the file system, as it is for the shared Java object.

Modules:

- `Wrappers`: `Option`, `Result`, and the two exceptions.
- `JavaString`: the `java.lang.String` operations the code uses.
- `WebBalaPath`, `WebBalaFileSystem`, `WebBalaFileSystemProvider`: the three classes.
- `PathLaws`, `NameLaws`, `ResolveLaws`, `EqualityLaws`: properties relating several operations.

Behaviours of the code worth knowing:

- normalize drops an unmatched `..` in relative paths too.
- startsWith, endsWith and compareTo compare raw text, not names.
- relativize makes both paths absolute but does not normalize them.
- getPath keeps working after close.
- Nothing joins a path onto the base directory or checks containment.

Several behaviours of the code are stated as lemmas rather than assumed away:

- subpath returns an absolute path when the first selected name is empty
  (`a//b`, names 1 to 3, gives `/b`).
- equals holds up to normalize, but resolve does not respect it in its argument:
  `..` equals the empty path, yet against `/a` the two resolve to `/` and `/a`.
- The empty path resolves as the root, while `.`, which equals it, stays relative.
- compareTo is not consistent with equals.
- relativize followed by resolve can miss its target when this path has a `.`
  or `..` name: from `/a/.` to `/a/b` it lands on `/b`.

## Model

Paths in the source column are relative to the repository root.

| member | source | states |
|---|---|---|
| JavaString.LastIndexOf | src/main/java/org/ballerinalang/lsp/filesystem/WebBalaPath.java:51 | `lastIndexOf('/')` is -1 or an index holding the character, with no occurrence after it |
| JavaString.LastIndexOfConcat | src/main/java/org/ballerinalang/lsp/filesystem/WebBalaPath.java:109 | in `x` + c + `y` with no c in `y`, the last c is at position \|x\| |
| JavaString.Split | src/main/java/org/ballerinalang/lsp/filesystem/WebBalaPath.java:129 | `split("/")` gives slash-free parts, is `[""]` exactly for the empty text, never ends in an empty part (except that case), and drops only trailing slashes of the input |
| JavaString.SplitJoin | src/main/java/org/ballerinalang/lsp/filesystem/WebBalaPath.java:234 | splitting slash-free parts joined by `/` gives the parts back when the last one is non-empty |
| JavaString.PiecesJoin | src/main/java/org/ballerinalang/lsp/filesystem/WebBalaPath.java:144 | the maximal slash-free pieces of joined slash-free parts are those parts |
| JavaString.PiecesConcat | src/main/java/org/ballerinalang/lsp/filesystem/WebBalaPath.java:209 | the pieces of `a/b` are the pieces of `a` followed by those of `b` |
| JavaString.CompareTo | src/main/java/org/ballerinalang/lsp/filesystem/WebBalaPath.java:27-30 | `String.compareTo` is zero exactly for equal texts |
| JavaString.CompareToAntisymmetric | src/main/java/org/ballerinalang/lsp/filesystem/WebBalaPath.java:27-30 | swapping the operands of compareTo negates the result |
| JavaString.CompareToTransitive | src/main/java/org/ballerinalang/lsp/filesystem/WebBalaPath.java:27-30 | compareTo's "less than" is transitive |
| JavaString.EqualsIgnoreCase | src/main/java/org/ballerinalang/lsp/filesystem/WebBalaFileSystemProvider.java:95 | `equalsIgnoreCase` holds exactly when the two lower-case forms are equal, so only for texts of equal length |
| JavaString.JoinEndsWithLast | src/main/java/org/ballerinalang/lsp/filesystem/WebBalaPath.java:144 | `String.join("/", parts)` ends with the last part |
| JavaString.WrapInt32 | src/main/java/org/ballerinalang/lsp/filesystem/WebBalaPath.java:290 | 32-bit wrap-around: the result is in int range and congruent to the input modulo 2^32 |
| JavaString.HashCode | src/main/java/org/ballerinalang/lsp/filesystem/WebBalaPath.java:290 | `String.hashCode` is a 32-bit int |
| WebBalaPath.IsAbsolute | src/main/java/org/ballerinalang/lsp/filesystem/WebBalaPath.java:122-125 | a path is absolute exactly when its text begins with a slash |
| WebBalaPath.Names | src/main/java/org/ballerinalang/lsp/filesystem/WebBalaPath.java:63-74 | the name elements (one leading and one trailing slash removed, then split) are slash-free |
| WebBalaPath.GetNameCount | src/main/java/org/ballerinalang/lsp/filesystem/WebBalaPath.java:81-101 | getNameCount is 0 for `""` and `/`, and otherwise the number of name elements |
| WebBalaPath.GetName | src/main/java/org/ballerinalang/lsp/filesystem/WebBalaPath.java:61-79 | getName(i) succeeds exactly when 0 <= i < getNameCount, then gives name i as a relative path of the same file system; otherwise IllegalArgument |
| WebBalaPath.Iterator | src/main/java/org/ballerinalang/lsp/filesystem/WebBalaPath.java:262-275 | the iterator yields getNameCount paths, the i-th being what getName(i) returns |
| WebBalaPath.GetFileName | src/main/java/org/ballerinalang/lsp/filesystem/WebBalaPath.java:42-54 | getFileName is null exactly for `""` and `/`; otherwise it is a slash-free suffix of the text (one trailing slash removed) that starts the text or follows a slash |
| WebBalaPath.GetParent | src/main/java/org/ballerinalang/lsp/filesystem/WebBalaPath.java:103-115 | getParent is null exactly for `""`, `/`, or a text with no slash once a trailing slash is removed; otherwise, with one trailing slash removed, it is `/` when the only slash is the first character, and else the text before the last slash |
| WebBalaPath.GetRoot | src/main/java/org/ballerinalang/lsp/filesystem/WebBalaPath.java:117-120 | getRoot is present exactly for absolute paths, and then it is an absolute path with no names, parent or file name |
| WebBalaPath.NormFrom | src/main/java/org/ballerinalang/lsp/filesystem/WebBalaPath.java:130-140 | starting from clean names and given slash-free parts, the stack holds only clean names (no empty, `.` or `..`), and it never grows by more than the parts |
| WebBalaPath.JoinCleanIsRelative | src/main/java/org/ballerinalang/lsp/filesystem/WebBalaPath.java:144 | joined clean names never start with a slash |
| WebBalaPath.Normalize | src/main/java/org/ballerinalang/lsp/filesystem/WebBalaPath.java:127-146 | normalize keeps the file system, and the result is absolute exactly when the input is |
| WebBalaPath.NormalizeLoop | src/main/java/org/ballerinalang/lsp/filesystem/WebBalaPath.java:127-146 | the loop that drives a deque over the split parts computes exactly the normalized path |
| WebBalaPath.ToAbsolutePath | src/main/java/org/ballerinalang/lsp/filesystem/WebBalaPath.java:238-246 | toAbsolutePath is absolute, returns absolute paths unchanged, and otherwise prepends one slash |
| WebBalaPath.ToRealPath | src/main/java/org/ballerinalang/lsp/filesystem/WebBalaPath.java:248-252 | toRealPath is an absolute path of the same file system |
| WebBalaPath.Resolve | src/main/java/org/ballerinalang/lsp/filesystem/WebBalaPath.java:192-211 | an absolute argument is returned; otherwise the texts are joined with a slash unless this one already ends in one, and the result is absolute exactly when this path is absolute or empty |
| WebBalaPath.Subpath | src/main/java/org/ballerinalang/lsp/filesystem/WebBalaPath.java:223-236 | subpath succeeds exactly when 0 <= begin < end <= name count (else IllegalArgument); its pieces are names begin..end-1, and it is absolute exactly when name `begin` is empty and at least two names are taken |
| WebBalaPath.RelativizeParts | src/main/java/org/ballerinalang/lsp/filesystem/WebBalaPath.java:156-167 | the parts relativize compares are slash-free |
| WebBalaPath.CommonPrefixLength | src/main/java/org/ballerinalang/lsp/filesystem/WebBalaPath.java:169-173 | the common prefix loop stops at a length where both lists agree before it and differ at it (or one list ends) |
| WebBalaPath.AppendAll | src/main/java/org/ballerinalang/lsp/filesystem/WebBalaPath.java:176-187 | the builder that puts a slash only between items never starts with a slash when given slash-free items |
| WebBalaPath.RelativizeItems | src/main/java/org/ballerinalang/lsp/filesystem/WebBalaPath.java:169-187 | one `..` per part of this path beyond the common prefix, followed by exactly the other path's remaining parts; slash-free when the other's parts are |
| WebBalaPath.Relativize | src/main/java/org/ballerinalang/lsp/filesystem/WebBalaPath.java:154-190 | relativize keeps the file system and is never absolute |
| WebBalaPath.Equals | src/main/java/org/ballerinalang/lsp/filesystem/WebBalaPath.java:277-286 | two paths are equal exactly when their normalized forms (file system and text) coincide, and equal paths agree on being absolute |
| WebBalaPath.CompareTo | src/main/java/org/ballerinalang/lsp/filesystem/WebBalaPath.java:27-30 | compareTo is zero exactly when the two texts are identical |
| WebBalaPath.StartsWith | src/main/java/org/ballerinalang/lsp/filesystem/WebBalaPath.java:213-216 | startsWith holds exactly when this text is the other's text followed by more text |
| WebBalaPath.EndsWith | src/main/java/org/ballerinalang/lsp/filesystem/WebBalaPath.java:32-35 | endsWith holds exactly when this text is some text followed by the other's text |
| WebBalaPath.HashCode | src/main/java/org/ballerinalang/lsp/filesystem/WebBalaPath.java:288-291 | `Objects.hash(fileSystem, normalized text)` is a 32-bit int |
| WebBalaPath.ToUriString | src/main/java/org/ballerinalang/lsp/filesystem/WebBalaPath.java:254-260 | the URI text is the scheme, `://`, then the absolute form of the path |
| PathLaws.NormFromConcat | src/main/java/org/ballerinalang/lsp/filesystem/WebBalaPath.java:131-140 | running the machine over two lists in turn is running it over their concatenation |
| PathLaws.NormFromClean | src/main/java/org/ballerinalang/lsp/filesystem/WebBalaPath.java:138 | clean parts are pushed as they are |
| PathLaws.NormFromParents | src/main/java/org/ballerinalang/lsp/filesystem/WebBalaPath.java:134-136 | k `..` parts pop exactly k entries from a stack that has them |
| PathLaws.NormFromSplit | src/main/java/org/ballerinalang/lsp/filesystem/WebBalaPath.java:129-133 | the trailing empty parts that split drops make no difference to the machine |
| PathLaws.NormalizeText | src/main/java/org/ballerinalang/lsp/filesystem/WebBalaPath.java:127-146 | the normalized text is the root followed by the joined stack of the machine run over every slash-separated piece |
| PathLaws.NamesOfJoin | src/main/java/org/ballerinalang/lsp/filesystem/WebBalaPath.java:63-74 | joined slash-free names whose first and last are non-empty, with or without a leading slash, have exactly those names (an empty name inside is kept) |
| PathLaws.NamesOfCanonical | src/main/java/org/ballerinalang/lsp/filesystem/WebBalaPath.java:63-74 | a root followed by joined clean names has exactly those names |
| PathLaws.NormPiecesCanonical | src/main/java/org/ballerinalang/lsp/filesystem/WebBalaPath.java:127-146 | the machine reads a root followed by joined clean names as exactly those names |
| PathLaws.NormalizeIsCanonical | src/main/java/org/ballerinalang/lsp/filesystem/WebBalaPath.java:127-146 | every name of a normalized path is clean (no empty, `.` or `..`), and the text is its root followed by its names joined |
| PathLaws.NormalizeIdempotent | src/main/java/org/ballerinalang/lsp/filesystem/WebBalaPath.java:127-146 | normalizing twice equals normalizing once |
| PathLaws.NormalizeDropsUnmatchedParent | src/main/java/org/ballerinalang/lsp/filesystem/WebBalaPath.java:134-136 | a leading `..` of a relative path is dropped: `../s` normalizes as `s` |
| PathLaws.NormalizeDropsParentOfRoot | src/main/java/org/ballerinalang/lsp/filesystem/WebBalaPath.java:134-136 | `..` right under the root is dropped: `/../s` normalizes as `/s` |
| PathLaws.NormalizeBySameRun | src/main/java/org/ballerinalang/lsp/filesystem/WebBalaPath.java:141-145 | two paths of one file system and one kind that leave the machine in the same state normalize to the same path |
| PathLaws.NormalizeDotAndParentExample | src/main/java/org/ballerinalang/lsp/filesystem/WebBalaPath.java:127-146 | `/a/./b/../c` normalizes to `/a/c` and equals it, for any clean a, b, c |
| NameLaws.SubpathNames | src/main/java/org/ballerinalang/lsp/filesystem/WebBalaPath.java:223-236 | when the first and last selected names are non-empty, the subpath has exactly the selected names, so getName(i) of it is getName(begin + i) of the path |
| NameLaws.SubpathOfAllNames | src/main/java/org/ballerinalang/lsp/filesystem/WebBalaPath.java:223-236 | subpath over all the names of a normalized, non-empty relative path gives the path back |
| NameLaws.SubpathCanBeAbsolute | src/main/java/org/ballerinalang/lsp/filesystem/WebBalaPath.java:230-235 | subpath(1, 3) of `a//b` is the absolute `/b` |
| NameLaws.FileNameIsLastName | src/main/java/org/ballerinalang/lsp/filesystem/WebBalaPath.java:42-54 | the file name of a normalized path with names is its last name, as the iterator yields it |
| NameLaws.ParentDropsLastName | src/main/java/org/ballerinalang/lsp/filesystem/WebBalaPath.java:103-115 | the parent of a normalized path with names is its root and all names but the last; a single relative name has none, a single absolute name has the root |
| NameLaws.ParentOfRootName | src/main/java/org/ballerinalang/lsp/filesystem/WebBalaPath.java:113 | the parent of `/x`, for any non-empty slash-free x (`.` and `..` included), is `/` |
| NameLaws.LastSlashOf | src/main/java/org/ballerinalang/lsp/filesystem/WebBalaPath.java:51 | the last slash of `x/y`, with y slash-free, is at position \|x\| |
| ResolveLaws.ResolveRunsOn | src/main/java/org/ballerinalang/lsp/filesystem/WebBalaPath.java:197-210 | resolving a relative path continues the machine from where this path's text left it |
| ResolveLaws.EqualsSameState | src/main/java/org/ballerinalang/lsp/filesystem/WebBalaPath.java:277-286 | equal paths have the same absoluteness and leave the machine in the same state |
| ResolveLaws.ResolveRespectsEqualsOfBase | src/main/java/org/ballerinalang/lsp/filesystem/WebBalaPath.java:192-211 | equal non-empty bases resolve any path to equal paths |
| ResolveLaws.ResolveEmptyBaseIsRoot | src/main/java/org/ballerinalang/lsp/filesystem/WebBalaPath.java:203-206 | `""` and `.` are equal, yet resolving a relative path against the first is absolute and against the second is relative |
| ResolveLaws.ResolveArgumentEqualsCounterexample | src/main/java/org/ballerinalang/lsp/filesystem/WebBalaPath.java:192-211 | `..` equals `""`, but against `/a` they resolve to paths normalizing to `/` and to `/a` |
| ResolveLaws.AppendAllRuns | src/main/java/org/ballerinalang/lsp/filesystem/WebBalaPath.java:176-187 | the machine reads relativize's built text as the list of items it was built from |
| ResolveLaws.RelativizePartsAreNames | src/main/java/org/ballerinalang/lsp/filesystem/WebBalaPath.java:156-167 | the parts relativize compares are the path's names |
| ResolveLaws.RelativizeItemsRun | src/main/java/org/ballerinalang/lsp/filesystem/WebBalaPath.java:169-187 | from a stack of clean names, the `..` items and the other's remaining parts reach the state of the other's parts |
| ResolveLaws.RelativizeThenResolve | src/main/java/org/ballerinalang/lsp/filesystem/WebBalaPath.java:154-211 | when this path's names are clean, resolving relativize(q) against this path's absolute form gives a path equal to q's absolute form |
| ResolveLaws.RelativizeThenResolveCounterexample | src/main/java/org/ballerinalang/lsp/filesystem/WebBalaPath.java:154-211 | with names `a` and `.`, relativize to `/a/b` gives `../b`, which resolved onto `/a/.` normalizes to `/b`, a path not equal to `/a/b` |
| ResolveLaws.ResolveThenRelativize | src/main/java/org/ballerinalang/lsp/filesystem/WebBalaPath.java:154-211 | from any path, relativizing the resolution of a relative path of the same file system that is empty or does not end in a slash gives that path back exactly |
| ResolveLaws.ResolveThenRelativizeDropsTrailingSlash | src/main/java/org/ballerinalang/lsp/filesystem/WebBalaPath.java:154-211 | the bound of that round trip: from `/`, `a/` resolves to `/a/` and relativizes back to `a`, without the trailing slash |
| ResolveLaws.RelativizeShape | src/main/java/org/ballerinalang/lsp/filesystem/WebBalaPath.java:176-189 | when the first and last items are non-empty, relativize's text is empty for no items and otherwise the items joined by `/`, which are then exactly its names |
| ResolveLaws.RelativizeSelf | src/main/java/org/ballerinalang/lsp/filesystem/WebBalaPath.java:154-190 | a path relativized against itself is the empty path |
| ResolveLaws.CommonPrefixOfExtension | src/main/java/org/ballerinalang/lsp/filesystem/WebBalaPath.java:169-173 | a list shares all of itself with any extension of it |
| ResolveLaws.ResolveAtLastSlash | src/main/java/org/ballerinalang/lsp/filesystem/WebBalaPath.java:103-115 | splitting a text at its last slash and resolving the tail against the head gives the text back, except that a double slash before the tail comes back as one; absoluteness is kept |
| ResolveLaws.ParentResolveFileName | src/main/java/org/ballerinalang/lsp/filesystem/WebBalaPath.java:42-54 | whenever there is a parent, resolving the file name against it gives a path equal to the original |
| EqualityLaws.EqualsIsEquivalence | src/main/java/org/ballerinalang/lsp/filesystem/WebBalaPath.java:277-286 | equals is reflexive, symmetric and transitive |
| EqualityLaws.EqualsNormalize | src/main/java/org/ballerinalang/lsp/filesystem/WebBalaPath.java:277-286 | every path equals its normalized form |
| EqualityLaws.HashCodeRespectsEquals | src/main/java/org/ballerinalang/lsp/filesystem/WebBalaPath.java:277-291 | equal paths have equal hash codes, whatever the file system's own hash |
| EqualityLaws.CompareToLaws | src/main/java/org/ballerinalang/lsp/filesystem/WebBalaPath.java:27-30 | compareTo is zero exactly for identical texts, and swapping the operands negates it |
| EqualityLaws.CompareToInconsistentWithEquals | src/main/java/org/ballerinalang/lsp/filesystem/WebBalaPath.java:27-30 | `/a/.` equals `/a`, but the two do not compare as equal |
| EqualityLaws.StartsWithIsTextual | src/main/java/org/ballerinalang/lsp/filesystem/WebBalaPath.java:213-221 | `/a/bc` starts with `/a/b` although the two differ in their second name |
| EqualityLaws.EndsWithIsTextual | src/main/java/org/ballerinalang/lsp/filesystem/WebBalaPath.java:32-40 | `/ab` ends with `b` although its file name is `ab` |
| PathLaws.TwoNames | src/main/java/org/ballerinalang/lsp/filesystem/WebBalaPath.java:63-74 | `/x/y`, with x and y non-empty and slash-free, has the names x and y |
| EqualityLaws.FileNameOfRootName | src/main/java/org/ballerinalang/lsp/filesystem/WebBalaPath.java:42-54 | the file name of `/x` is `x` |
| EqualityLaws.ResolveExtendsText | src/main/java/org/ballerinalang/lsp/filesystem/WebBalaPath.java:192-221 | for every base and relative argument, the resolved path starts with the base and ends with the argument |
| EqualityLaws.StartsWithIsPrefixOrder | src/main/java/org/ballerinalang/lsp/filesystem/WebBalaPath.java:213-216 | startsWith is reflexive, antisymmetric on texts and transitive |
| EqualityLaws.ToRealPathIdempotent | src/main/java/org/ballerinalang/lsp/filesystem/WebBalaPath.java:248-252 | toRealPath is idempotent |
| EqualityLaws.ToRealPathIsNormalAbsolute | src/main/java/org/ballerinalang/lsp/filesystem/WebBalaPath.java:248-252 | toRealPath is normalized and equals the absolute form |
| EqualityLaws.ToAbsolutePathIdempotent | src/main/java/org/ballerinalang/lsp/filesystem/WebBalaPath.java:238-246 | toAbsolutePath is idempotent |
| WebBalaFileSystem.New | src/main/java/org/ballerinalang/lsp/filesystem/WebBalaFileSystem.java:13-17 | a new file system is open and keeps the provider it was given |
| WebBalaFileSystem.Close | src/main/java/org/ballerinalang/lsp/filesystem/WebBalaFileSystem.java:24-27 | close clears the open flag and keeps identity and provider |
| WebBalaFileSystem.CloseIdempotent | src/main/java/org/ballerinalang/lsp/filesystem/WebBalaFileSystem.java:24-27 | closing twice is closing once |
| WebBalaFileSystem.ConstantQueries | src/main/java/org/ballerinalang/lsp/filesystem/WebBalaFileSystem.java:29-32 | the separator is `/`, the file system is not read-only, the only attribute view is `basic`, and there are no file stores |
| WebBalaFileSystem.GetPath | src/main/java/org/ballerinalang/lsp/filesystem/WebBalaFileSystem.java:34-41 | getPath gives a path of this file system whose text starts with the first segment |
| WebBalaFileSystem.GetPathIsJoin | src/main/java/org/ballerinalang/lsp/filesystem/WebBalaFileSystem.java:34-41 | getPath's text is the first segment and the further ones joined by `/` |
| WebBalaFileSystem.GetPathNames | src/main/java/org/ballerinalang/lsp/filesystem/WebBalaFileSystem.java:34-41 | with non-empty slash-free segments, the path is relative and its names are exactly the segments, in order |
| WebBalaFileSystem.GetPathIgnoresOpen | src/main/java/org/ballerinalang/lsp/filesystem/WebBalaFileSystem.java:34-41 | a closed file system builds the same paths |
| WebBalaFileSystem.RootDirectoryIsRoot | src/main/java/org/ballerinalang/lsp/filesystem/WebBalaFileSystem.java:49-52 | there is exactly one root directory; it is the root of every absolute path of this file system and is absolute, normalized, with no names, parent or file name |
| WebBalaFileSystemProvider.Create | src/main/java/org/ballerinalang/lsp/filesystem/WebBalaFileSystemProvider.java:26-31 | a new provider keeps the directory it was given, and no URI finds a file system in it |
| WebBalaFileSystemProvider.GetScheme | src/main/java/org/ballerinalang/lsp/filesystem/WebBalaFileSystemProvider.java:33-36 | getScheme is always `web-bala`, whatever the provider's state |
| WebBalaFileSystemProvider.NewFileSystem | src/main/java/org/ballerinalang/lsp/filesystem/WebBalaFileSystemProvider.java:38-45 | newFileSystem creates a fresh open file system of this provider with the next identity, registers it under the URI's exact scheme, leaves every file system already created (a displaced one included), every other scheme's lookup and the base directory unchanged, and keeps the state consistent |
| WebBalaFileSystemProvider.GetFileSystem | src/main/java/org/ballerinalang/lsp/filesystem/WebBalaFileSystemProvider.java:83-90 | getFileSystem succeeds exactly when the exact scheme is registered, giving that file system; otherwise FileSystemNotFound |
| WebBalaFileSystemProvider.CloseFileSystem | src/main/java/org/ballerinalang/lsp/filesystem/WebBalaFileSystem.java:24-27 | closing a registered file system closes it for every holder, keeps its identity and provider, and changes no other file system, registration, base directory or numbering |
| WebBalaFileSystemProvider.GetPath | src/main/java/org/ballerinalang/lsp/filesystem/WebBalaFileSystemProvider.java:92-118 | IllegalArgument exactly when the scheme differs from `web-bala` ignoring case; FileSystemNotFound exactly when it passes that test but is not registered; otherwise a path of the registered file system that is the root for a missing, empty or `/` URI path, and otherwise the decoded path less one leading slash |
| WebBalaFileSystemProvider.ToUri | src/main/java/org/ballerinalang/lsp/filesystem/WebBalaPath.java:254-260 | toUri has this provider's scheme and the path's absolute form |
| WebBalaFileSystemProvider.LastRegistrationWins | src/main/java/org/ballerinalang/lsp/filesystem/WebBalaFileSystemProvider.java:38-45 | registering twice under one scheme: the lookup finds the second file system, which differs from the first; the first stays in the heap, unchanged and open |
| WebBalaFileSystemProvider.GetPathExample | src/main/java/org/ballerinalang/lsp/filesystem/WebBalaFileSystemProvider.java:108-117 | `web-bala:///src/test.bala` gives the relative path `src/test.bala` |
| WebBalaFileSystemProvider.GetPathRoot | src/main/java/org/ballerinalang/lsp/filesystem/WebBalaFileSystemProvider.java:102-106 | a missing, empty or `/` URI path gives the root |
| WebBalaFileSystemProvider.GetPathLooksUpExactScheme | src/main/java/org/ballerinalang/lsp/filesystem/WebBalaFileSystemProvider.java:95-100 | `WEB-BALA` passes the scheme test, then finds nothing registered under that exact string |
| WebBalaFileSystemProvider.GetPathChecksSchemeFirst | src/main/java/org/ballerinalang/lsp/filesystem/WebBalaFileSystemProvider.java:92-100 | a URI of another scheme is refused even when a file system is registered under that scheme |
| WebBalaFileSystemProvider.GetPathAfterClose | src/main/java/org/ballerinalang/lsp/filesystem/WebBalaFileSystemProvider.java:92-118 | closing a file system does not change what getPath returns |
| WebBalaFileSystemProvider.GetPathOfToUri | src/main/java/org/ballerinalang/lsp/filesystem/WebBalaFileSystemProvider.java:103-117 | for a path whose text has only characters a URI path holds as themselves (no `?`, `#`, `%` or space), and a decoder that leaves the text alone, getPath of toUri(p), resolved against the root, equals p's absolute form |

## Left out

- URL decoding: `URLDecoder.decode` is a parameter `decode` of `WebBalaFileSystemProvider.GetPath`. `URI.getPath()` already returns decoded text, so the code decodes twice (a `%2541` becomes `A`). Which text comes out depends entirely on the decoder, so nothing about it is claimed.
- URI parsing and `URI.create` validation: a URI is its scheme and its optional path as `getPath()` returns them. `ToUriString` gives the text that `URI.create` would parse.
- WebBalaFileSystemProvider.ToUri: the record's path is the absolute text before parsing, not what `URI.getPath()` returns for `URI.create(scheme + "://" + text)`. The two differ for texts with `?` or `#` (the path ends there), or `%` (getPath decodes the escape), and `URI.create` throws on characters a URI may not hold, such as a space. `GetPathOfToUri` therefore requires a text of plain URI path characters (`IsPlainUriPathChar`).
- Nulls: Dafny strings and paths are never null.
  - A null varargs array in the file system's getPath is treated like an empty one. This is modelled, as `more == []`.
  - A null `first` segment is not modelled. With further segments `String.join` renders it as the text `null`; without them the path text is null.
  - A null scheme and a null `other` argument are not modelled; they would raise a NullPointerException.
  - `equals(null)` returns false; this is not modelled.
  - A missing URI path is an `Option` and is modelled.
- Arguments of other `Path` classes: every argument of equals, compareTo, startsWith, endsWith, resolve and relativize is a path of this model. The branch of equals that returns false for an object that is not a WebBalaPath (WebBalaPath.java:281) is not modelled. The other methods read a foreign path only through its own `toString`, `isAbsolute` and `toAbsolutePath`, whose results are outside this model, so they are not modelled for such arguments either.
- The methods that only throw UnsupportedOperationException. These are the provider's checkAccess, copy, createDirectory, delete, getFileAttributeView, getFileStore, isHidden, isSameFile, move, newByteChannel, newDirectoryStream, readAttributes and setAttribute; `WebBalaPath.register`; and the file system's getPathMatcher, getUserPrincipalLookupService and newWatchService.
- The `String` overloads of startsWith and endsWith: the same textual tests on a plain string.
- The default provider constructor, which reads the `user.dir` system property. The base directory is kept as its text.
- All `System.out.println` output.
- `FileSystemTest.java`: a `main` program that performs file I/O and only prints.
- Object identity: file systems and providers are numbered, and a new file system takes the next free number. `equals` on file systems is Java's reference equality, which is equality of these numbers.
- The element type of getFileStores: there are no file stores, so a placeholder `FileStore` record stands in for the class.
- Exception messages: only the exception kind is modelled.
- JavaString.CompareTo: compares characters as Dafny characters (Unicode scalar values), not UTF-16 code units. For texts outside the Basic Multilingual Plane the sign may differ from Java's.
- JavaString.HashCode: hashes one value per Dafny character, not per UTF-16 code unit. The hash therefore differs from Java's for characters outside the Basic Multilingual Plane.
- JavaString.EqualsIgnoreCase: folds ASCII letters only. Against `web-bala` this is exact, since no other character folds onto its letters or `-`.
- WebBalaPath.HashCode: states only the int range. The property that matters, agreement with equals, is `EqualityLaws.HashCodeRespectsEquals`.
- ResolveLaws.ResolveRespectsEqualsOfBase: requires non-empty bases. The empty base is the exception, shown by `ResolveLaws.ResolveEmptyBaseIsRoot`.
- ResolveLaws.RelativizeThenResolve: requires this path's names to be clean. An empty name, `.` or `..` in this path makes relativize count one `..` per raw part, and the round trip can then fail (`ResolveLaws.RelativizeThenResolveCounterexample`).
