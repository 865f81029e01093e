/**
  Laws about resolve, relativize, getParent and getFileName, stated up to
  `equals` (that is, up to normalize), since none of these operations
  normalizes its result.
 */
module ResolveLaws {
  import opened Wrappers
  import opened WebBalaPath
  import opened PathLaws
  import S = JavaString

  // ---------------------------------------------------------------------
  // resolve

  /** An empty part in front of the rest is invisible to the machine, wherever the machine stands. */
  lemma NormFromEmptyThen(stack: seq<string>, xs: seq<string>)
    ensures NormFrom(NormFrom(stack, [""]), xs) == NormFrom(stack, xs)
  {
    assert [""][1..] == [];
  }

  /** A trailing slash adds one empty piece, which the machine skips. */
  lemma NormPiecesTrailingSlash(stack: seq<string>, w: string, ys: seq<string>)
    ensures NormFrom(NormFrom(stack, S.Pieces(w + "/")), ys) == NormFrom(NormFrom(stack, S.Pieces(w)), ys)
  {
    S.PiecesConcat(w, "");
    assert w + "/" + "" == w + "/";
    NormFromConcat(stack, S.Pieces(w), [""]);
    NormFromEmptyThen(NormFrom(stack, S.Pieces(w)), ys);
  }

  /**
    resolve with a relative path continues the machine where this path's
    text left it: the names of `other` are applied on top of those of `p`.
   */
  lemma ResolveRunsOn(p: Path, other: Path)
    requires !IsAbsolute(other)
    ensures NormFrom([], S.Pieces(Resolve(p, other).str)) == NormFrom(NormFrom([], S.Pieces(p.str)), S.Pieces(other.str))
  {
    var r := Resolve(p, other).str;
    if S.EndsWith(p.str, "/") {
      var w := p.str[..|p.str| - 1];
      assert p.str == w + "/";
      assert r == w + "/" + other.str;
      S.PiecesConcat(w, other.str);
      NormFromConcat([], S.Pieces(w), S.Pieces(other.str));
      NormPiecesTrailingSlash([], w, S.Pieces(other.str));
    } else if p.str == "" {
      assert r == "" + "/" + other.str;
      S.PiecesConcat("", other.str);
      NormFromConcat([], S.Pieces(""), S.Pieces(other.str));
    } else {
      S.PiecesConcat(p.str, other.str);
      NormFromConcat([], S.Pieces(p.str), S.Pieces(other.str));
    }
  }

  /** A canonical text starts with a slash exactly when its root is absolute. */
  lemma RootDecides(absolute: bool, xs: seq<string>)
    requires forall i :: 0 <= i < |xs| ==> Clean(xs[i])
    ensures S.StartsWith(Root(absolute) + S.Join(xs), "/") <==> absolute
  {
    JoinCleanIsRelative(xs);
  }

  /** A root followed by joined clean names determines both the root and the names. */
  lemma CanonicalTextInjective(a1: bool, xs: seq<string>, a2: bool, ys: seq<string>)
    requires forall i :: 0 <= i < |xs| ==> Clean(xs[i])
    requires forall i :: 0 <= i < |ys| ==> Clean(ys[i])
    requires Root(a1) + S.Join(xs) == Root(a2) + S.Join(ys)
    ensures a1 == a2 && xs == ys
  {
    RootDecides(a1, xs);
    RootDecides(a2, ys);
    NamesOfCanonical(a1, xs);
    NamesOfCanonical(a2, ys);
  }

  /** Equal paths reach the same machine state and have the same absoluteness. */
  lemma EqualsSameState(p1: Path, p2: Path)
    requires Equals(p1, p2)
    ensures IsAbsolute(p1) == IsAbsolute(p2)
    ensures NormFrom([], S.Pieces(p1.str)) == NormFrom([], S.Pieces(p2.str))
  {
    NormalizeText(p1);
    NormalizeText(p2);
    CanonicalTextInjective(IsAbsolute(p1), NormFrom([], S.Pieces(p1.str)), IsAbsolute(p2), NormFrom([], S.Pieces(p2.str)));
  }

  /**
    resolve respects `equals` in its base: two equal non-empty bases resolve
    any path to equal paths. (The empty base is excluded because resolve
    treats it as the root while `.`, which equals it, stays relative.)
   */
  lemma ResolveRespectsEqualsOfBase(p1: Path, p2: Path, q: Path)
    requires p1.str != "" && p2.str != ""
    requires Equals(p1, p2)
    ensures Equals(Resolve(p1, q), Resolve(p2, q))
  {
    if !IsAbsolute(q) {
      EqualsSameState(p1, p2);
      ResolveRunsOn(p1, q);
      ResolveRunsOn(p2, q);
      NormalizeText(Resolve(p1, q));
      NormalizeText(Resolve(p2, q));
    }
  }

  /** The empty path and `.` are equal, yet resolve makes the first absolute and keeps the second relative. */
  lemma ResolveEmptyBaseIsRoot(fs: FsId, q: Path)
    requires !IsAbsolute(q)
    ensures Equals(Path(fs, ""), Path(fs, "."))
    ensures IsAbsolute(Resolve(Path(fs, ""), q)) && !IsAbsolute(Resolve(Path(fs, "."), q))
  {
    assert S.Slash !in ".";
    assert S.Split(".") == ["."] && S.Split("") == [""];
    assert NormFrom([], ["."]) == [] && NormFrom([], [""]) == [];
    assert Normalize(Path(fs, "")).str == "" && Normalize(Path(fs, ".")).str == "";
  }

  /**
    resolve does NOT respect `equals` in its argument: `..` equals the empty
    path (normalize drops an unmatched `..` even in a relative path), but
    against `/a` the first resolves to the root and the second to `/a`.
   */
  lemma ResolveArgumentEqualsCounterexample(fs: FsId, a: string)
    requires Clean(a)
    ensures Equals(Path(fs, ".."), Path(fs, ""))
    ensures Normalize(Resolve(Path(fs, "/" + a), Path(fs, ".."))) == Path(fs, "/")
    ensures Normalize(Resolve(Path(fs, "/" + a), Path(fs, ""))) == Path(fs, "/" + a)
  {
    ParentEqualsEmpty(fs);
    ResolveParentAgainstName(fs, a);
    ResolveEmptyAgainstName(fs, a);
  }

  /** A lone `..` normalizes to the empty path. */
  lemma ParentEqualsEmpty(fs: FsId)
    ensures Equals(Path(fs, ".."), Path(fs, ""))
  {
    assert S.Slash !in "..";
    assert S.Split("..") == [".."] && S.Split("") == [""];
    assert NormFrom([], [".."]) == [] && NormFrom([], [""]) == [];
    assert Normalize(Path(fs, "..")).str == "" && Normalize(Path(fs, "")).str == "";
  }

  /** `/a` resolved against `..` normalizes to the root. */
  lemma ResolveParentAgainstName(fs: FsId, a: string)
    requires Clean(a)
    ensures Normalize(Resolve(Path(fs, "/" + a), Path(fs, ".."))) == Path(fs, "/")
  {
    var base := "/" + a;
    assert base[|base| - 1] == a[|a| - 1] && a[|a| - 1] in a;
    assert !S.EndsWith(base, "/");
    var up := Resolve(Path(fs, base), Path(fs, ".."));
    assert up.str == base + "/" + "..";
    S.JoinThree("", a, "..");
    assert "" + "/" + a == base;
    var ups := ["", a, ".."];
    assert up.str == S.Join(ups);
    assert ups[1..] == [a, ".."] && ups[2..] == [".."];
    assert [] + [a] == [a];
    assert NormFrom([a], ups[2..]) == [];
    assert NormFrom([], ups[1..]) == [];
    NormalizeJoined(up, ups);
  }

  /** `/a` resolved against the empty path normalizes back to `/a`. */
  lemma ResolveEmptyAgainstName(fs: FsId, a: string)
    requires Clean(a)
    ensures Normalize(Resolve(Path(fs, "/" + a), Path(fs, ""))) == Path(fs, "/" + a)
  {
    var base := "/" + a;
    assert base[|base| - 1] == a[|a| - 1] && a[|a| - 1] in a;
    assert !S.EndsWith(base, "/");
    var same := Resolve(Path(fs, base), Path(fs, ""));
    assert same.str == base + "/" + "";
    S.JoinThree("", a, "");
    assert "" + "/" + a == base;
    var sames := ["", a, ""];
    assert same.str == S.Join(sames);
    assert sames[1..] == [a, ""] && sames[2..] == [""];
    assert [] + [a] == [a];
    assert NormFrom([a], sames[2..]) == [a];
    assert NormFrom([], sames[1..]) == [a];
    assert S.Join([a]) == a;
    NormalizeJoined(same, sames);
  }


  // ---------------------------------------------------------------------
  // relativize

  /** Join distributes over concatenation of non-empty lists. */
  lemma {:induction false} JoinAppend(xs: seq<string>, ys: seq<string>)
    requires |xs| >= 1 && |ys| >= 1
    ensures S.Join(xs + ys) == S.Join(xs) + "/" + S.Join(ys)
    decreases |xs|
  {
    if |xs| == 1 {
      assert (xs + ys)[1..] == ys;
    } else {
      assert (xs + ys)[1..] == xs[1..] + ys;
      JoinAppend(xs[1..], ys);
    }
  }

  /** Once the builder holds something, relativize's appends are a plain join. */
  lemma {:induction false} AppendAllJoin(acc: string, xs: seq<string>)
    requires |acc| > 0
    ensures AppendAll(acc, xs) == S.Join([acc] + xs)
    decreases |xs|
  {
    if |xs| > 0 {
      var next := acc + "/" + xs[0];
      AppendAllJoin(next, xs[1..]);
      if |xs| == 1 {
        assert [acc] + xs == [acc, xs[0]];
      } else {
        assert ([next] + xs[1..])[1..] == xs[1..];
        assert ([acc] + xs)[1..] == xs;
        assert xs == [xs[0]] + xs[1..];
        assert ([xs[0]] + xs[1..])[1..] == xs[1..];
      }
    }
  }

  /**
    The machine reads relativize's built text exactly as the list of items
    it was built from: leading empty items vanish from the text, but the
    machine would have skipped them anyway.
   */
  lemma {:induction false} AppendAllRuns(stack: seq<string>, items: seq<string>)
    requires forall i :: 0 <= i < |items| ==> S.Slash !in items[i]
    ensures NormFrom(stack, S.Pieces(AppendAll("", items))) == NormFrom(stack, items)
    decreases |items|
  {
    if |items| == 0 {
      assert NormFrom(stack, [""]) == stack;
    } else if items[0] == "" {
      AppendAllRuns(stack, items[1..]);
    } else {
      AppendAllJoin(items[0], items[1..]);
      assert [items[0]] + items[1..] == items;
      S.PiecesJoin(items);
    }
  }

  /** Java's split ignores one trailing slash. */
  lemma SplitIgnoresTrailingSlash(u: string)
    ensures SplitOrEmpty(u) == SplitOrEmpty(StripTrailingSlash(u))
  {
    if S.EndsWith(u, "/") {
      var w := u[..|u| - 1];
      assert u == w + "/" + "";
      SplitAfterSlashEmpty(w);
    }
  }

  /** The parts relativize compares are the path's names. */
  lemma RelativizePartsAreNames(p: Path)
    ensures RelativizeParts(p) == Names(p.str)
  {
    SplitIgnoresTrailingSlash(StripLeadingSlash(ToAbsolutePath(p).str));
    if !IsAbsolute(p) {
      assert ToAbsolutePath(p).str[1..] == p.str;
    }
  }

  /** The machine reads the absolute form of a path as the parts relativize compares. */
  lemma AbsoluteRuns(p: Path)
    ensures NormFrom([], S.Pieces(ToAbsolutePath(p).str)) == NormFrom([], RelativizeParts(p))
  {
    var a := ToAbsolutePath(p).str;
    var u := a[1..];
    assert a == "/" + u;
    PiecesUnderRoot(u);
    NormFromSkipsEmptyAtFront([], S.Pieces(u));
    if u != "" {
      NormFromSplit([], u);
    } else {
      assert NormFrom([], [""]) == [];
    }
  }

  /**
    On the machine, relativize's items undo the names of this path beyond a
    common prefix and then push the other path's remaining parts.
   */
  lemma RelativizeItemsRun(m: seq<string>, t: seq<string>, i: nat)
    requires i <= |m| && i <= |t| && m[..i] == t[..i]
    requires forall k :: 0 <= k < |m| ==> Clean(m[k])
    ensures NormFrom(m, Parents(|m| - i) + t[i..]) == NormFrom([], t)
  {
    UndoBeyondPrefix(m, i, t[i..]);
    RunPrefixThenRest(m, t, i);
  }

  /** Undoing all but the first `i` entries of a stack, then running `rest`. */
  lemma UndoBeyondPrefix(m: seq<string>, i: nat, rest: seq<string>)
    requires i <= |m|
    ensures NormFrom(m, Parents(|m| - i) + rest) == NormFrom(m[..i], rest)
  {
    NormFromConcat(m, Parents(|m| - i), rest);
    NormFromParents(m, |m| - i);
    assert m[..|m| - (|m| - i)] == m[..i];
  }

  /** Running a list whose first `i` parts are the clean parts `m[..i]`. */
  lemma RunPrefixThenRest(m: seq<string>, t: seq<string>, i: nat)
    requires i <= |m| && i <= |t| && m[..i] == t[..i]
    requires forall k :: 0 <= k < |m| ==> Clean(m[k])
    ensures NormFrom([], t) == NormFrom(m[..i], t[i..])
  {
    SharedPrefixSplit(m, t, i);
    NormFromConcat([], m[..i], t[i..]);
    CleanPrefixRuns(m, i);
  }

  /** A list that shares its first `i` entries with `m` is `m[..i]` followed by its own rest. */
  lemma SharedPrefixSplit(m: seq<string>, t: seq<string>, i: nat)
    requires i <= |m| && i <= |t| && m[..i] == t[..i]
    ensures t == m[..i] + t[i..]
  {
    assert t == t[..i] + t[i..];
  }

  /** A prefix of clean parts runs to itself. */
  lemma CleanPrefixRuns(m: seq<string>, i: nat)
    requires i <= |m|
    requires forall k :: 0 <= k < |m| ==> Clean(m[k])
    ensures NormFrom([], m[..i]) == m[..i]
  {
    var pre := m[..i];
    assert forall k :: 0 <= k < |pre| ==> Clean(pre[k]);
    NormFromClean([], pre);
    assert [] + pre == pre;
  }

  /** For a path with clean names, the machine reads its absolute form as exactly its names. */
  lemma AbsoluteRunsClean(p: Path)
    requires forall i :: 0 <= i < |Names(p.str)| ==> Clean(Names(p.str)[i])
    ensures NormFrom([], S.Pieces(ToAbsolutePath(p).str)) == RelativizeParts(p)
  {
    RelativizePartsAreNames(p);
    AbsoluteRuns(p);
    NormFromClean([], RelativizeParts(p));
    assert [] + RelativizeParts(p) == RelativizeParts(p);
  }

  /** The machine state relativize-then-resolve reaches is that of the target's parts. */
  lemma RelativizeThenResolveRuns(p: Path, q: Path)
    requires forall i :: 0 <= i < |Names(p.str)| ==> Clean(Names(p.str)[i])
    ensures NormFrom([], S.Pieces(Resolve(ToAbsolutePath(p), Relativize(p, q)).str)) == NormFrom([], RelativizeParts(q))
  {
    var a := ToAbsolutePath(p);
    var r := Relativize(p, q);
    ResolveRunsOn(a, r);
    AbsoluteRunsClean(p);
    RelativizeRuns(p, q);
  }

  /** From the stack of `p`'s parts, the machine reads relativize's text as `q`'s parts. */
  lemma RelativizeRuns(p: Path, q: Path)
    requires forall i :: 0 <= i < |Names(p.str)| ==> Clean(Names(p.str)[i])
    ensures NormFrom(RelativizeParts(p), S.Pieces(Relativize(p, q).str)) == NormFrom([], RelativizeParts(q))
  {
    var m := RelativizeParts(p);
    var t := RelativizeParts(q);
    var i := CommonPrefixLength(m, t);
    RelativizeText(p, q);
    RelativizePartsAreNames(p);
    ItemsRun(m, t, i);
  }

  /** The list-level form of RelativizeRuns, for any common prefix length `i`. */
  lemma ItemsRun(m: seq<string>, t: seq<string>, i: nat)
    requires i <= |m| && i <= |t| && m[..i] == t[..i]
    requires forall k :: 0 <= k < |m| ==> Clean(m[k])
    requires forall k :: 0 <= k < |t| ==> S.Slash !in t[k]
    ensures NormFrom(m, S.Pieces(AppendAll("", Parents(|m| - i) + t[i..]))) == NormFrom([], t)
  {
    var items := Parents(|m| - i) + t[i..];
    assert forall k :: 0 <= k < |items| ==> S.Slash !in items[k] by {
      ItemsSlashFree(|m| - i, t[i..]);
    }
    AppendAllRuns(m, items);
    RelativizeItemsRun(m, t, i);
  }

  /** `..` items followed by slash-free parts are slash-free. */
  lemma ItemsSlashFree(n: nat, rest: seq<string>)
    requires forall k :: 0 <= k < |rest| ==> S.Slash !in rest[k]
    ensures forall k :: 0 <= k < |Parents(n) + rest| ==> S.Slash !in (Parents(n) + rest)[k]
  {
    assert S.Slash !in "..";
    var items := Parents(n) + rest;
    forall k | 0 <= k < |items| ensures S.Slash !in items[k] {
      if k < n { assert items[k] == ".."; } else { assert items[k] == rest[k - n]; }
    }
  }

  /** The text relativize builds: the `..` items and the other path's remaining parts. */
  lemma RelativizeText(p: Path, q: Path)
    ensures var m := RelativizeParts(p);
      var t := RelativizeParts(q);
      var i := CommonPrefixLength(m, t);
      Relativize(p, q).str == AppendAll("", Parents(|m| - i) + t[i..])
  {
    var m := RelativizeParts(p);
    var t := RelativizeParts(q);
    var i := CommonPrefixLength(m, t);
    ItemsAre(RelativizeItems(m, t), |m| - i, t[i..]);
  }

  /** A list of `n` copies of `..` followed by `rest` is `Parents(n) + rest`. */
  lemma ItemsAre(r: seq<string>, n: nat, rest: seq<string>)
    requires |r| == n + |rest| && r[n..] == rest
    requires forall k :: 0 <= k < n ==> r[k] == ".."
    ensures r == Parents(n) + rest
  {
    assert r[..n] == Parents(n);
    assert r == r[..n] + r[n..];
  }
  /**
    resolve undoes relativize: resolving the relative path from `p` to `q`
    against `p`'s absolute form gives a path equal to `q`'s absolute form,
    provided `p`'s names are clean (no empty name, `.` or `..`).
   */
  lemma RelativizeThenResolve(p: Path, q: Path)
    requires p.fs == q.fs
    requires forall i :: 0 <= i < |Names(p.str)| ==> Clean(Names(p.str)[i])
    ensures Equals(Resolve(ToAbsolutePath(p), Relativize(p, q)), ToAbsolutePath(q))
  {
    var back := Resolve(ToAbsolutePath(p), Relativize(p, q));
    RelativizeThenResolveRuns(p, q);
    AbsoluteRuns(q);
    NormalizeText(back);
    NormalizeText(ToAbsolutePath(q));
  }

  /**
    The clean-names condition of the round trip cannot be dropped: `/a/.`
    has the names `a` and `.`, so relativize against `/a/b` counts one
    `..` for the `.` and gives `../b`; resolved back onto `/a/.` that climbs
    out of `a` and lands on `/b`, which is not `/a/b`.
   */
  lemma RelativizeThenResolveCounterexample(fs: FsId, a: string, b: string)
    requires Clean(a) && Clean(b)
    ensures Relativize(Path(fs, "/" + a + "/."), Path(fs, "/" + a + "/" + b)) == Path(fs, ".." + "/" + b)
    ensures Normalize(Resolve(Path(fs, "/" + a + "/."), Path(fs, ".." + "/" + b))) == Path(fs, "/" + b)
    ensures !Equals(Resolve(ToAbsolutePath(Path(fs, "/" + a + "/.")), Relativize(Path(fs, "/" + a + "/."), Path(fs, "/" + a + "/" + b))),
                    ToAbsolutePath(Path(fs, "/" + a + "/" + b)))
  {
    var p := Path(fs, "/" + a + "/.");
    var q := Path(fs, "/" + a + "/" + b);
    DotSuffixRelativize(p, q, a, b);
    DotThenParentNormalize(fs, a, b);
    PlainExampleNormalize(fs, a, b);
    assert ToAbsolutePath(p) == p && ToAbsolutePath(q) == q;
    assert |"/" + b| < |"/" + a + "/" + b|;
  }

  /** Relativizing `/a/b` against `/a/.` gives `../b`. */
  lemma DotSuffixRelativize(p: Path, q: Path, a: string, b: string)
    requires Clean(a) && Clean(b) && p.fs == q.fs
    requires p.str == "/" + a + "/." && q.str == "/" + a + "/" + b
    ensures Relativize(p, q) == Path(p.fs, ".." + "/" + b)
  {
    assert RelativizeParts(p) == [a, "."] by {
      DotSuffixNames(a);
      RelativizePartsAreNames(p);
    }
    assert RelativizeParts(q) == [a, b] by {
      TwoNames(a, b);
      RelativizePartsAreNames(q);
    }
    DotSuffixItems(a, b);
    ParentThenNameText(b);
  }

  /** The names of `/a/.` are `a` and `.`. */
  lemma DotSuffixNames(a: string)
    requires Clean(a)
    ensures Names("/" + a + "/.") == [a, "."]
  {
    TwoNames(a, ".");
    assert "/" + a + "/." == "/" + a + "/" + ".";
  }

  /** The items relativize builds from the parts `a`, `.` and `a`, `b`. */
  lemma DotSuffixItems(a: string, b: string)
    requires Clean(a) && Clean(b)
    ensures RelativizeItems([a, "."], [a, b]) == ["..", b]
  {
    var m := [a, "."];
    var t := [a, b];
    assert CommonPrefixLength(m, t) == 1 by {
      assert m[0] == t[0] && m[1] != t[1];
    }
    var items := RelativizeItems(m, t);
    assert |items| == 2 && items[0] == "..";
    assert items[1..] == t[1..] == [b];
  }

  /** The builder's text for the items `..` and `b`. */
  lemma ParentThenNameText(b: string)
    ensures AppendAll("", ["..", b]) == ".." + "/" + b
  {
    var xs := ["..", b];
    assert xs[0] == ".." && xs[1..] == [b];
    assert AppendPart("", "..") == "..";
    assert AppendAll("", xs) == AppendAll("..", [b]);
    assert [b][0] == b && [b][1..] == [];
    assert AppendPart("..", b) == ".." + "/" + b;
    assert AppendAll("..", [b]) == AppendAll(".." + "/" + b, []);
  }

  /** `/a/.` resolved with `../b` normalizes to `/b`. */
  lemma DotThenParentNormalize(fs: FsId, a: string, b: string)
    requires Clean(a) && Clean(b)
    ensures Normalize(Resolve(Path(fs, "/" + a + "/."), Path(fs, ".." + "/" + b))) == Path(fs, "/" + b)
  {
    var base := Path(fs, "/" + a + "/.");
    var rel := Path(fs, ".." + "/" + b);
    assert !S.EndsWith(base.str, "/") by {
      assert base.str[|base.str| - 1] == '.';
    }
    assert !IsAbsolute(rel) by {
      assert rel.str[0] == '.';
    }
    var back := Resolve(base, rel);
    assert back.str == base.str + "/" + rel.str;
    var xs := ["", a, ".", "..", b];
    DotThenParentText(a, b);
    forall i | 0 <= i < |xs| ensures S.Slash !in xs[i] {
      if i == 0 { assert xs[i] == ""; }
      else if i == 1 { assert xs[i] == a; }
      else if i == 2 { assert xs[i] == "."; }
      else if i == 3 { assert xs[i] == ".."; }
      else { assert xs[i] == b; }
    }
    DotThenParentStack(a, b);
    NormalizeJoined(back, xs);
    assert S.Join([b]) == b;
  }

  /** The text of `/a/.` resolved with `../b`, as joined parts. */
  lemma DotThenParentText(a: string, b: string)
    ensures S.Join(["", a, ".", "..", b]) == "/" + a + "/." + "/" + (".." + "/" + b)
  {
    var xs := ["", a, ".", "..", b];
    var j3 := ".." + "/" + b;
    var j2 := "." + "/" + j3;
    var j1 := a + "/" + j2;
    var j0 := "" + "/" + j1;
    assert xs[3..] == ["..", b] && xs[2..] == ["."] + xs[3..];
    assert xs[1..] == [a] + xs[2..] && xs == [""] + xs[1..];
    assert S.Join(xs[3..]) == j3;
    assert S.Join(xs[2..]) == j2;
    assert S.Join(xs[1..]) == j1;
    assert S.Join(xs) == j0;
    assert j0 == "/" + a + "/." + "/" + j3;
  }

  /** The machine leaves only `b` of `/a/./../b`. */
  lemma DotThenParentStack(a: string, b: string)
    requires Clean(a) && Clean(b)
    ensures NormFrom([], ["", a, ".", "..", b]) == [b]
  {
    var xs := ["", a, ".", "..", b];
    assert [a][..0] == [] && [] + [a] == [a] && [] + [b] == [b];
    assert NormStep([a], "..") == [];
    assert NormFrom([b], xs[5..]) == [b];
    assert NormFrom([], xs[4..]) == [b];
    assert NormFrom([a], xs[3..]) == [b];
    assert NormFrom([a], xs[2..]) == [b];
    assert NormFrom([], xs[1..]) == [b];
  }

  /** A list shares all of itself with any extension of it. */
  lemma {:induction false} CommonPrefixOfExtension(a: seq<string>, b: seq<string>)
    ensures CommonPrefixLength(a, a + b) == |a|
    decreases |a|
  {
    if |a| > 0 {
      assert (a + b)[1..] == a[1..] + b;
      CommonPrefixOfExtension(a[1..], b);
    }
  }

  /** Relativize's builder joins a list whose first item is non-empty. */
  lemma AppendAllNonEmpty(n: seq<string>)
    requires |n| >= 1 && n[0] != ""
    ensures AppendAll("", n) == S.Join(n)
  {
    AppendAllJoin(n[0], n[1..]);
    assert [n[0]] + n[1..] == n;
  }

  /** Leading empty items leave relativize's builder empty, so they add nothing. */
  lemma {:induction false} AppendAllSkipsEmpties(e: seq<string>, xs: seq<string>)
    requires forall k :: 0 <= k < |e| ==> e[k] == ""
    ensures AppendAll("", e + xs) == AppendAll("", xs)
    decreases |e|
  {
    if |e| > 0 {
      assert (e + xs)[0] == "" && (e + xs)[1..] == e[1..] + xs;
      assert AppendPart("", "") == "";
      assert AppendAll("", e + xs) == AppendAll("", e[1..] + xs);
      AppendAllSkipsEmpties(e[1..], xs);
    } else {
      assert e + xs == xs;
    }
  }

  /** `split` of a text, or nothing for the empty text, is its pieces less their trailing empty ones. */
  lemma SplitOrEmptyIsDropped(u: string)
    ensures SplitOrEmpty(u) == S.DropTrailingEmpty(S.Pieces(u))
  {
    if u == "" {
      assert S.Pieces(u) == [""];
      assert [""][..0] == [];
    } else if S.Slash !in u {
      S.PiecesNoSlash(u);
    }
  }

  /** The first piece of a text not starting with a slash is non-empty. */
  lemma FirstPieceNonEmpty(q: string)
    requires q != "" && q[0] != S.Slash
    ensures S.Pieces(q)[0] != ""
  {
    var ps := S.Pieces(q);
    if |ps| >= 2 {
      assert q == ps[0] + "/" + S.Join(ps[1..]);
    }
  }

  /** The last piece of a text not ending in a slash is non-empty. */
  lemma LastPieceNonEmpty(q: string)
    requires q != "" && q[|q| - 1] != S.Slash
    ensures S.Pieces(q)[|S.Pieces(q)| - 1] != ""
  {
    var ps := S.Pieces(q);
    if |ps| >= 2 {
      var init := ps[..|ps| - 1];
      assert init + [ps[|ps| - 1]] == ps;
      S.JoinSnoc(init, ps[|ps| - 1]);
      assert ps[|ps| - 1] == "" ==> q == S.Join(init) + "/";
    }
  }

  /** Relativize's builder over the pieces of a non-empty relative text not ending in a slash gives the text back. */
  lemma AppendAllPieces(q: string)
    requires q != "" && q[0] != S.Slash && q[|q| - 1] != S.Slash
    ensures AppendAll("", S.Pieces(q)) == q
  {
    FirstPieceNonEmpty(q);
    LastPieceNonEmpty(q);
    AppendAllNonEmpty(S.Pieces(q));
  }

  /** Splitting `u/`: the split of u (the trailing slash is dropped with the empty piece after it). */
  lemma SplitAfterSlashEmpty(u: string)
    ensures SplitOrEmpty(u + "/" + "") == SplitOrEmpty(u)
  {
    SplitOrEmptyIsDropped(u + "/" + "");
    S.PiecesConcat(u, "");
    assert S.Pieces("") == [""];
    S.DropTrailingEmptySnoc(S.Pieces(u));
    SplitOrEmptyIsDropped(u);
  }

  /**
    Splitting `u/q`, for non-empty q not ending in a slash: every piece of u
    (the trailing empty ones included) followed by the pieces of q.
   */
  lemma SplitAfterSlash(u: string, q: string)
    requires q != "" && q[|q| - 1] != S.Slash
    ensures SplitOrEmpty(u + "/" + q) == S.Pieces(u) + S.Pieces(q)
  {
    LastPieceNonEmpty(q);
    S.PiecesConcat(u, q);
    SplitOfSlashPieces(u, q);
  }

  /** `u/q` splits to the pieces of u and of q when those make up its pieces and the last of them is non-empty. */
  lemma SplitOfSlashPieces(u: string, q: string)
    requires S.Pieces(u + "/" + q) == S.Pieces(u) + S.Pieces(q)
    requires S.Pieces(q)[|S.Pieces(q)| - 1] != ""
    ensures SplitOrEmpty(u + "/" + q) == S.Pieces(u) + S.Pieces(q)
  {
    SplitOfPieces(u + "/" + q, S.Pieces(u), S.Pieces(q));
  }

  /** A text whose pieces are `xs + ys`, with the last of ys non-empty, splits to exactly those pieces. */
  lemma SplitOfPieces(t: string, xs: seq<string>, ys: seq<string>)
    requires S.Pieces(t) == xs + ys
    requires |ys| > 0 && ys[|ys| - 1] != ""
    ensures SplitOrEmpty(t) == xs + ys
  {
    var all := xs + ys;
    assert all[|all| - 1] == ys[|ys| - 1];
    SplitOrEmptyIsDropped(t);
    DropTrailingEmptyKeeps(all);
  }

  /** A list whose last entry is non-empty loses nothing to the dropping of trailing empties. */
  lemma DropTrailingEmptyKeeps(xs: seq<string>)
    requires |xs| > 0 && xs[|xs| - 1] != ""
    ensures S.DropTrailingEmpty(xs) == xs
  {
  }


  /** Relativizing from a list to an extension of it gives exactly the extension's new items. */
  lemma ItemsOfExtension(m: seq<string>, rest: seq<string>)
    ensures RelativizeItems(m, m + rest) == rest
  {
    CommonPrefixOfExtension(m, rest);
    assert (m + rest)[|m|..] == rest;
  }

  /** The pieces of a text are its split followed by the trailing empty pieces that split drops. */
  lemma PiecesAreSplitThenEmpties(u: string)
    ensures var mine := SplitOrEmpty(u);
      && mine <= S.Pieces(u)
      && S.Pieces(u) == mine + S.Pieces(u)[|mine|..]
      && forall k :: |mine| <= k < |S.Pieces(u)| ==> S.Pieces(u)[k] == ""
  {
    SplitOrEmptyIsDropped(u);
  }

  /** Relativizing from the parts of `u` to the parts of `u/q` gives q back, for q empty or relative and not ending in a slash. */
  lemma RelativizeAfterSlash(u: string, q: string)
    requires q == "" || (q[0] != S.Slash && q[|q| - 1] != S.Slash)
    ensures AppendAll("", RelativizeItems(SplitOrEmpty(u), SplitOrEmpty(u + "/" + q))) == q
  {
    if q == "" {
      var mine := SplitOrEmpty(u);
      SplitAfterSlashEmpty(u);
      ItemsOfExtension(mine, []);
      assert mine + [] == mine;
    } else {
      RelativizeAfterSlashName(u, q);
    }
  }

  /** The non-empty case of `RelativizeAfterSlash`: the trailing empty pieces of u come back as items, and the builder skips them. */
  lemma RelativizeAfterSlashName(u: string, q: string)
    requires q != "" && q[0] != S.Slash && q[|q| - 1] != S.Slash
    ensures AppendAll("", RelativizeItems(SplitOrEmpty(u), SplitOrEmpty(u + "/" + q))) == q
  {
    PiecesAreSplitThenEmpties(u);
    SplitAfterSlash(u, q);
    RelativizePastEmpties(SplitOrEmpty(u), S.Pieces(u), S.Pieces(q));
    AppendAllPieces(q);
  }

  /** Relativizing from a list to that list, some empty items and then `ys` builds the same text as `ys` alone. */
  lemma RelativizePastEmpties(mine: seq<string>, xs: seq<string>, ys: seq<string>)
    requires mine <= xs
    requires forall k :: |mine| <= k < |xs| ==> xs[k] == ""
    ensures AppendAll("", RelativizeItems(mine, xs + ys)) == AppendAll("", ys)
  {
    var e := xs[|mine|..];
    assert forall k :: 0 <= k < |e| ==> e[k] == "" by {
      assert forall k :: 0 <= k < |e| ==> e[k] == xs[|mine| + k];
    }
    assert xs + ys == mine + (e + ys) by {
      assert xs == mine + e;
    }
    ItemsOfExtension(mine, e + ys);
    AppendAllSkipsEmpties(e, ys);
  }

  /** Relativizing from no parts to the split of q gives q back, for q empty or relative and not ending in a slash. */
  lemma RelativizeFromNothing(q: string)
    requires q == "" || (q[0] != S.Slash && q[|q| - 1] != S.Slash)
    ensures AppendAll("", RelativizeItems([], SplitOrEmpty(q))) == q
  {
    if q != "" {
      SplitOrEmptyIsDropped(q);
      LastPieceNonEmpty(q);
      assert SplitOrEmpty(q) == S.Pieces(q);
      assert [] + S.Pieces(q) == S.Pieces(q);
      CommonPrefixOfExtension([], S.Pieces(q));
      AppendAllPieces(q);
    }
  }

  /**
    What relativize reads of a resolution. With `a` the absolute text of p
    less its leading slash, the resolved path's absolute text less its
    leading slash is q's text when a is empty, and otherwise a (less a
    trailing slash) and q's text with one slash between them.
   */
  lemma ResolvedTail(p: Path, q: Path)
    requires !IsAbsolute(q)
    ensures var a := StripLeadingSlash(ToAbsolutePath(p).str);
      var b := StripLeadingSlash(ToAbsolutePath(Resolve(p, q)).str);
      && (a == "" ==> b == q.str)
      && (a != "" && S.EndsWith(a, "/") ==> b == a[..|a| - 1] + "/" + q.str)
      && (a != "" && !S.EndsWith(a, "/") ==> b == a + "/" + q.str)
  {
    if p.str == "" || p.str == "/" {
      ResolvedTextBare(p, q);
      assert ("/" + q.str)[1..] == q.str;
    } else {
      ResolvedText(p, q);
      assert S.EndsWith(p.str, "/") <==> p.str[|p.str| - 1] == S.Slash;
      StrippedTail(ToAbsolutePath(p).str, ToAbsolutePath(Resolve(p, q)).str, q.str, S.EndsWith(p.str, "/"));
    }
  }

  /**
    The text-level step of `ResolvedTail`: when R is an absolute text A of two
    or more characters followed by qs, with a slash between exactly when A
    does not end in one, R less its leading slash is A's tail (less a
    trailing slash), a slash and qs.
   */
  lemma StrippedTail(A: string, R: string, qs: string, slashEnd: bool)
    requires |A| >= 2 && A[0] == S.Slash
    requires slashEnd <==> A[|A| - 1] == S.Slash
    requires R == A + (if slashEnd then qs else "/" + qs)
    ensures var a := StripLeadingSlash(A);
      var b := StripLeadingSlash(R);
      && a != ""
      && (S.EndsWith(a, "/") ==> b == a[..|a| - 1] + "/" + qs)
      && (!S.EndsWith(a, "/") ==> b == a + "/" + qs)
  {
    var a := A[1..];
    assert A == "/" + a;
    assert S.EndsWith(a, "/") <==> slashEnd by {
      assert a[|a| - 1] == A[|A| - 1];
    }
    if slashEnd {
      assert a == a[..|a| - 1] + "/";
      assert R == "/" + (a[..|a| - 1] + "/" + qs);
    } else {
      assert R == "/" + (a + "/" + qs);
    }
  }

  /** Resolving onto the empty path or the root: both are `/` when absolute, and the result is `/` followed by q. */
  lemma ResolvedTextBare(p: Path, q: Path)
    requires !IsAbsolute(q) && (p.str == "" || p.str == "/")
    ensures ToAbsolutePath(p).str == "/"
    ensures ToAbsolutePath(Resolve(p, q)).str == "/" + q.str
  {
    assert S.EndsWith("/", "/");
  }

  /** Resolving onto any other path: its absolute text, then q, with a slash between unless the base ends in one. */
  lemma ResolvedText(p: Path, q: Path)
    requires !IsAbsolute(q) && p.str != "" && p.str != "/"
    ensures |ToAbsolutePath(p).str| >= 2
    ensures ToAbsolutePath(p).str[|ToAbsolutePath(p).str| - 1] == p.str[|p.str| - 1]
    ensures ToAbsolutePath(Resolve(p, q)).str
      == ToAbsolutePath(p).str + (if S.EndsWith(p.str, "/") then q.str else "/" + q.str)
  {
    if !IsAbsolute(p) {
      assert ToAbsolutePath(p).str == "/" + p.str;
    }
  }


  /**
    relativize undoes resolve: relativizing the resolution of a relative
    path that is empty or does not end in a slash, from any path of the same
    file system, gives that path back exactly. (A trailing slash of q is
    lost: `b/` comes back as `b`.)
   */
  lemma ResolveThenRelativize(p: Path, q: Path)
    requires p.fs == q.fs
    requires !IsAbsolute(q) && (q.str == "" || q.str[|q.str| - 1] != S.Slash)
    ensures Relativize(p, Resolve(p, q)) == q
  {
    var r := Resolve(p, q);
    var a := StripLeadingSlash(ToAbsolutePath(p).str);
    var b := StripLeadingSlash(ToAbsolutePath(r).str);
    ResolvedTail(p, q);
    var items := RelativizeItems(SplitOrEmpty(a), SplitOrEmpty(b));
    assert Relativize(p, r) == Path(p.fs, AppendAll("", items));
    assert AppendAll("", items) == q.str by {
      if a == "" {
        RelativizeFromNothing(q.str);
      } else if S.EndsWith(a, "/") {
        var u := a[..|a| - 1];
        assert SplitOrEmpty(a) == SplitOrEmpty(u) by {
          assert StripTrailingSlash(a) == u;
          SplitIgnoresTrailingSlash(a);
        }
        RelativizeAfterSlash(u, q.str);
      } else {
        RelativizeAfterSlash(a, q.str);
      }
    }
  }


  /**
    The bound of the round trip: a trailing slash of the relative path is
    lost. From the root, `a/` resolves to `/a/`, and relativize gives `a`.
   */
  lemma ResolveThenRelativizeDropsTrailingSlash(fs: FsId, a: string)
    requires Clean(a)
    ensures Relativize(Path(fs, "/"), Resolve(Path(fs, "/"), Path(fs, a + "/"))) == Path(fs, a)
  {
    var r := Resolve(Path(fs, "/"), Path(fs, a + "/"));
    assert S.EndsWith("/", "/");
    assert r.str == "/" + (a + "/" + "");
    assert RelativizeParts(Path(fs, "/")) == [];
    assert RelativizeParts(r) == SplitOrEmpty(a) by {
      assert StripLeadingSlash(r.str) == a + "/" + "";
      SplitAfterSlashEmpty(a);
    }
    RelativizeFromNothing(a);
  }

  /**
    The shape of relativize: its items joined by slashes, or the empty text
    when there are none; when the first and last items are non-empty, they are exactly
    the names of the result.
   */
  lemma RelativizeShape(p: Path, q: Path)
    requires var items := RelativizeItems(RelativizeParts(p), RelativizeParts(q));
      items != [] ==> items[0] != "" && items[|items| - 1] != ""
    ensures var items := RelativizeItems(RelativizeParts(p), RelativizeParts(q));
      && (items == [] ==> Relativize(p, q).str == "")
      && (items != [] ==> Relativize(p, q).str == S.Join(items) && Names(Relativize(p, q).str) == items)
  {
    var items := RelativizeItems(RelativizeParts(p), RelativizeParts(q));
    if items != [] {
      AppendAllNonEmpty(items);
      NamesOfJoin(items);
    }
  }

  /** A path relativized against itself is the empty path. */
  lemma RelativizeSelf(p: Path)
    ensures Relativize(p, p) == Path(p.fs, "")
  {
    var m := RelativizeParts(p);
    assert m[|m|..] == [];
    assert Parents(0) + [] == [];
  }

  // ---------------------------------------------------------------------
  // getParent and getFileName

  /** A trailing slash is invisible to the machine. */
  lemma TrailingSlashRuns(s: string)
    ensures NormFrom([], S.Pieces(s)) == NormFrom([], S.Pieces(StripTrailingSlash(s)))
  {
    if S.EndsWith(s, "/") {
      var t := s[..|s| - 1];
      assert s == t + "/";
      NormPiecesTrailingSlash([], t, []);
    }
  }

  /** A doubled slash is invisible to the machine. */
  lemma DoubleSlashRuns(u: string, f: string)
    ensures NormFrom([], S.Pieces(u + "/" + "/" + f)) == NormFrom([], S.Pieces(u + "/" + f))
  {
    S.PiecesConcat(u, "/" + f);
    assert u + "/" + "/" + f == u + "/" + ("/" + f);
    PiecesUnderRoot(f);
    S.PiecesConcat(u, f);
    NormFromConcat([], S.Pieces(u), [""] + S.Pieces(f));
    NormFromConcat([], S.Pieces(u), S.Pieces(f));
    NormFromSkipsEmptyAtFront(NormFrom([], S.Pieces(u)), S.Pieces(f));
    assert S.Pieces(u) + ([""] + S.Pieces(f)) == S.Pieces(u) + [""] + S.Pieces(f);
  }

  /**
    The text of a parent resolved against its file name, given the last
    slash `k` of the text `t`: `t` itself, except that a slash doubled just
    before the file name comes back single.
   */
  lemma ResolveAtLastSlash(fs: FsId, t: string, k: int)
    requires 0 <= k < |t| && t[k] == S.Slash
    requires forall j :: k < j < |t| ==> t[j] != S.Slash
    ensures var parent := if k == 0 then "/" else t[..k];
      var back := Resolve(Path(fs, parent), Path(fs, t[k + 1..])).str;
      && (S.StartsWith(back, "/") <==> S.StartsWith(t, "/"))
      && if k > 0 && t[k - 1] == S.Slash then back == t[..k - 1] + "/" + t[k + 1..] && t == t[..k - 1] + "/" + "/" + t[k + 1..]
         else back == t
  {
    var f := t[k + 1..];
    var q := Path(fs, f);
    assert t == t[..k] + "/" + f;
    if |f| > 0 {
      assert t[k + 1] == f[0];
    }
    assert !IsAbsolute(q);
    if k == 0 {
      assert S.EndsWith("/", "/");
      assert Resolve(Path(fs, "/"), q).str == "/" + f;
    } else if t[k - 1] == S.Slash {
      var parent := t[..k];
      assert parent == t[..k - 1] + "/";
      assert S.EndsWith(parent, "/");
      assert Resolve(Path(fs, parent), q).str == parent + f;
      assert parent[0] == t[0];
    } else {
      var parent := t[..k];
      assert parent[k - 1] == t[k - 1];
      assert !S.EndsWith(parent, "/");
      assert parent != "" && parent != "/";
      assert Resolve(Path(fs, parent), q).str == parent + "/" + f;
      assert parent[0] == t[0];
    }
  }

  /** resolving a path's file name against its parent gives a path equal to the path. */
  lemma ParentResolveFileName(p: Path)
    requires GetParent(p).Some?
    ensures Equals(Resolve(GetParent(p).value, GetFileName(p).value), p)
  {
    var t := StripTrailingSlash(p.str);
    var k := S.LastIndexOf(t, S.Slash);
    var back := Resolve(GetParent(p).value, GetFileName(p).value);
    assert GetFileName(p).value == Path(p.fs, t[k + 1..]);
    ResolveAtLastSlash(p.fs, t, k);
    assert p.str[0] == t[0];
    TrailingSlashRuns(p.str);
    if k > 0 && t[k - 1] == S.Slash {
      DoubleSlashRuns(t[..k - 1], t[k + 1..]);
    }
    NormalizeText(back);
    NormalizeText(p);
  }
}
