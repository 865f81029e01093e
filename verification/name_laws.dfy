/**
  Laws about the name elements of a path: what subpath, getFileName and
  getParent return, read back through getName and getNameCount.
 */
module NameLaws {
  import opened Wrappers
  import opened WebBalaPath
  import opened PathLaws
  import S = JavaString

  /**
    subpath keeps the selected names: when the first and last of them are
    non-empty (an empty name inside is kept as a doubled slash), the result
    has exactly those names, so it has `end - begin` of them and its i-th
    name is name `begin + i` of the path.
   */
  lemma SubpathNames(p: Path, begin: int, end: int)
    requires Subpath(p, begin, end).Ok?
    requires begin < end ==> Names(p.str)[begin] != "" && Names(p.str)[end - 1] != ""
    ensures var sub := Subpath(p, begin, end).value;
      && Names(sub.str) == Names(p.str)[begin..end]
      && GetNameCount(sub) == end - begin
      && forall i :: 0 <= i < end - begin ==> GetName(sub, i) == GetName(p, begin + i)
  {
    SubpathText(p, begin, end);
    NamesOfJoinedSlice(Names(p.str), begin, end);
    GetNamesOfSlice(p, Subpath(p, begin, end).value, begin, end);
  }

  /** A path of the same file system whose names are a slice of p's names has, at each index, the name of p at that index plus the slice's start. */
  lemma GetNamesOfSlice(p: Path, sub: Path, begin: int, end: int)
    requires sub.fs == p.fs && 0 <= begin <= end <= |Names(p.str)|
    requires Names(sub.str) == Names(p.str)[begin..end]
    ensures forall i :: 0 <= i < end - begin ==> GetName(sub, i) == GetName(p, begin + i)
  {
    var all := Names(p.str);
    forall i | 0 <= i < end - begin
      ensures GetName(sub, i) == GetName(p, begin + i)
    {
      assert all[begin..end][i] == all[begin + i];
    }
  }

  /** The joined slice of a name list, its first and last names non-empty, has exactly the names of the slice. */
  lemma NamesOfJoinedSlice(all: seq<string>, begin: int, end: int)
    requires 0 <= begin < end <= |all|
    requires forall i :: 0 <= i < |all| ==> S.Slash !in all[i]
    requires all[begin] != "" && all[end - 1] != ""
    ensures Names(S.Join(all[begin..end])) == all[begin..end]
  {
    var names := all[begin..end];
    assert forall i :: 0 <= i < |names| ==> names[i] == all[begin + i];
    NamesOfJoin(names);
  }

  /** subpath over all the names of a normalized relative path gives the path back. */
  lemma SubpathOfAllNames(p: Path)
    requires !IsAbsolute(p) && Normalize(p) == p && p.str != ""
    ensures Subpath(p, 0, GetNameCount(p)) == Ok(p)
  {
    NormalizeIsCanonical(p);
    var names := Names(p.str);
    assert p.str == S.Join(names);
    assert names[0..|names|] == names;
  }

  /** The last slash of a text that ends with a slash and a slash-free tail. */
  lemma LastSlashOf(x: string, y: string)
    requires S.Slash !in y
    ensures S.LastIndexOf(x + "/" + y, S.Slash) == |x|
  {
    assert x + "/" + y == x + [S.Slash] + y;
    S.LastIndexOfConcat(x, S.Slash, y);
  }

  /** A root and joined names, at least one, are the root and leading names, a slash, and the last name. */
  lemma CanonicalTextSplitLast(r: string, names: seq<string>)
    requires |names| >= 1
    ensures var init := names[..|names| - 1];
      var last := names[|names| - 1];
      if |init| == 0 then r + S.Join(names) == r + last
      else r + S.Join(names) == r + S.Join(init) + "/" + last
  {
    JoinSplitLast(names);
  }

  /** A normalized path with at least one name is its root and leading names, a slash, and its last name. */
  lemma CanonicalSplitLast(p: Path)
    requires Normalize(p) == p && GetNameCount(p) > 0
    ensures var names := Names(p.str);
      var init := names[..|names| - 1];
      var last := names[|names| - 1];
      && Clean(last)
      && (forall i :: 0 <= i < |init| ==> Clean(init[i]))
      && (if |init| == 0 then p.str == Root(IsAbsolute(p)) + last
          else p.str == Root(IsAbsolute(p)) + S.Join(init) + "/" + last)
  {
    var names := Names(p.str);
    NormalizeIsCanonical(p);
    CanonicalTextSplitLast(Root(IsAbsolute(p)), names);
  }

  /** A joined list is its leading parts joined, a slash, and its last part. */
  lemma JoinSplitLast(xs: seq<string>)
    requires |xs| >= 1
    ensures |xs| == 1 ==> S.Join(xs) == xs[0]
    ensures |xs| > 1 ==> S.Join(xs) == S.Join(xs[..|xs| - 1]) + "/" + xs[|xs| - 1]
  {
    if |xs| > 1 {
      S.JoinInitLast(xs);
    }
  }

  /** The file name of a normalized path with at least one name is its last name. */
  lemma FileNameIsLastName(p: Path)
    requires Normalize(p) == p && GetNameCount(p) > 0
    ensures GetFileName(p) == Some(Iterator(p)[GetNameCount(p) - 1])
  {
    var names := Names(p.str);
    var init := names[..|names| - 1];
    var last := names[|names| - 1];
    CanonicalSplitLast(p);
    assert GetName(p, |names| - 1) == Ok(Path(p.fs, last));
    if |init| > 0 {
      FileNameAfterSlash(p.fs, Root(IsAbsolute(p)) + S.Join(init), last);
    } else if IsAbsolute(p) {
      FileNameAfterSlash(p.fs, "", last);
      assert "" + "/" + last == Root(true) + last;
    } else {
      FileNameOfName(p.fs, last);
    }
  }

  /** The file name of `x/last`, for a clean `last`, is `last`. */
  lemma FileNameAfterSlash(fs: FsId, x: string, last: string)
    requires Clean(last)
    ensures GetFileName(Path(fs, x + "/" + last)) == Some(Path(fs, last))
  {
    var s := x + "/" + last;
    assert s[|s| - 1] == last[|last| - 1] && last[|last| - 1] in last;
    LastSlashOf(x, last);
    assert s[|x| + 1..] == last;
  }

  /** A single clean name is its own file name. */
  lemma FileNameOfName(fs: FsId, last: string)
    requires Clean(last)
    ensures GetFileName(Path(fs, last)) == Some(Path(fs, last))
  {
    assert last[|last| - 1] in last;
    assert S.LastIndexOf(last, S.Slash) == -1;
  }

  /** The parent of `x/last`, for a non-empty `x` and a non-empty slash-free `last`, is `x`. */
  lemma ParentOfText(fs: FsId, x: string, last: string)
    requires x != "" && last != "" && S.Slash !in last
    ensures GetParent(Path(fs, x + "/" + last)) == Some(Path(fs, x))
  {
    var s := x + "/" + last;
    assert s[|s| - 1] == last[|last| - 1] && last[|last| - 1] in last;
    LastSlashOf(x, last);
    assert s[..|x|] == x;
    assert s != "/";
  }

  /** The parent of `/last`, for a non-empty slash-free `last` (`.` and `..` too), is the root. */
  lemma ParentOfRootName(fs: FsId, last: string)
    requires last != "" && S.Slash !in last
    ensures GetParent(Path(fs, "/" + last)) == Some(Path(fs, "/"))
  {
    var s := "/" + last;
    assert s[|s| - 1] == last[|last| - 1] && last[|last| - 1] in last;
    LastSlashOf("", last);
    assert "" + "/" + last == s;
  }

  /** A single clean name has no parent. */
  lemma ParentOfName(fs: FsId, last: string)
    requires Clean(last)
    ensures GetParent(Path(fs, last)) == None
  {
    assert |last| > 0 ==> last[|last| - 1] in last;
  }

  /**
    The parent of a normalized path with at least one name drops the last
    name; a relative path of one name has no parent, and an absolute one has
    the root.
   */
  lemma ParentDropsLastName(p: Path)
    requires Normalize(p) == p && GetNameCount(p) > 0
    ensures var names := Names(p.str);
      var init := names[..|names| - 1];
      GetParent(p) == if !IsAbsolute(p) && |init| == 0 then None
        else Some(Path(p.fs, Root(IsAbsolute(p)) + S.Join(init)))
  {
    var names := Names(p.str);
    var init := names[..|names| - 1];
    var last := names[|names| - 1];
    CanonicalSplitLast(p);
    if |init| > 0 {
      var x := Root(IsAbsolute(p)) + S.Join(init);
      S.JoinStartsWithFirst(init);
      assert |x| > 0;
      ParentOfText(p.fs, x, last);
    } else if IsAbsolute(p) {
      assert init == [] && Root(true) + S.Join([]) == "/";
      ParentOfRootName(p.fs, last);
    } else {
      ParentOfName(p.fs, last);
    }
  }

  /**
    subpath can return an absolute path: the names of `a//b` are `a`, the
    empty name and `b`, and the subpath of the last two is `/b`.
   */
  lemma SubpathCanBeAbsolute(fs: FsId, a: string, b: string)
    requires Clean(a) && Clean(b)
    ensures Subpath(Path(fs, a + "//" + b), 1, 3) == Ok(Path(fs, "/" + b))
  {
    NamesWithEmptyMiddle(a, b);
    SubpathOfLastTwo(Path(fs, a + "//" + b), a, "", b);
    S.JoinTwo("", b);
    assert "" + "/" + b == "/" + b;
  }

  /** The subpath of the last two of three names is those two joined. */
  lemma SubpathOfLastTwo(p: Path, x: string, y: string, z: string)
    requires Names(p.str) == [x, y, z]
    ensures Subpath(p, 1, 3) == Ok(Path(p.fs, S.Join([y, z])))
  {
    SubpathText(p, 1, 3);
    assert Names(p.str)[1..3] == [y, z];
  }

  /** A subpath in range is the selected names joined with slashes. */
  lemma SubpathText(p: Path, begin: int, end: int)
    requires 0 <= begin < end <= |Names(p.str)|
    ensures Subpath(p, begin, end) == Ok(Path(p.fs, S.Join(Names(p.str)[begin..end])))
  {
  }


  /** The names of `a//b` are `a`, the empty name and `b`. */
  lemma NamesWithEmptyMiddle(a: string, b: string)
    requires Clean(a) && Clean(b)
    ensures Names(a + "//" + b) == [a, "", b]
  {
    S.JoinThree(a, "", b);
    assert a + "/" + "" + "/" + b == a + "//" + b;
    NamesOfJoinedText(a + "//" + b, [a, "", b]);
  }

  /** A text that is the join of slash-free names, the first and last non-empty, has exactly those names. */
  lemma NamesOfJoinedText(s: string, xs: seq<string>)
    requires |xs| >= 1 && S.Join(xs) == s
    requires forall i :: 0 <= i < |xs| ==> S.Slash !in xs[i]
    requires xs[0] != "" && xs[|xs| - 1] != ""
    ensures Names(s) == xs
  {
    NamesOfJoin(xs);
  }
}
