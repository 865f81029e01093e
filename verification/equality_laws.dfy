/**
  Laws about `equals`, `hashCode`, `compareTo`, `startsWith` and
  `toRealPath`: equality is an equivalence up to normalize that the hash
  respects, while ordering and prefix tests look at the raw text only.
 */
module EqualityLaws {
  import opened Wrappers
  import opened WebBalaPath
  import opened PathLaws
  import S = JavaString

  /** `equals` is reflexive, symmetric and transitive. */
  lemma EqualsIsEquivalence(p: Path, q: Path, r: Path)
    ensures Equals(p, p)
    ensures Equals(p, q) ==> Equals(q, p)
    ensures Equals(p, q) && Equals(q, r) ==> Equals(p, r)
  {
  }

  /** Every path equals its normalized form. */
  lemma EqualsNormalize(p: Path)
    ensures Equals(p, Normalize(p))
  {
    NormalizeIdempotent(p);
  }

  /** Equal paths have equal hash codes, whatever the file system's own hash. */
  lemma HashCodeRespectsEquals(p: Path, q: Path, identityHash: FsId -> int)
    requires Equals(p, q)
    ensures HashCode(p, identityHash) == HashCode(q, identityHash)
  {
    var h := identityHash(p.fs);
    assert h == identityHash(q.fs);
    assert S.HashCode(Normalize(p).str) == S.HashCode(Normalize(q).str);
  }

  /** `compareTo` is zero exactly for identical texts, and swapping the operands negates it. */
  lemma CompareToLaws(p: Path, q: Path)
    ensures CompareTo(p, q) == 0 <==> p.str == q.str
    ensures CompareTo(p, q) == -CompareTo(q, p)
  {
    S.CompareToAntisymmetric(p.str, q.str);
  }

  /** The text `/a/.` as joined parts, and what the machine leaves of it. */
  lemma DotSuffixParts(a: string)
    requires Clean(a)
    ensures S.Join(["", a, "."]) == "/" + a + "/."
    ensures NormFrom([], ["", a, "."]) == [a]
  {
    var xs := ["", a, "."];
    assert xs[1..] == [a, "."] && xs[2..] == ["."];
    assert S.Join([a, "."]) == a + "/" + ".";
    assert "" + "/" + (a + "/" + ".") == "/" + a + "/.";
    assert [] + [a] == [a];
    assert NormFrom([a], xs[2..]) == [a];
    assert NormFrom([], xs[1..]) == [a];
  }

  /**
    `compareTo` is not consistent with `equals`: `/a/.` equals `/a`, yet the
    two compare as different.
   */
  lemma CompareToInconsistentWithEquals(fs: FsId, a: string)
    requires Clean(a)
    ensures Equals(Path(fs, "/" + a + "/."), Path(fs, "/" + a))
    ensures CompareTo(Path(fs, "/" + a + "/."), Path(fs, "/" + a)) != 0
  {
    DotSuffixParts(a);
    NormalizeJoined(Path(fs, "/" + a + "/."), ["", a, "."]);
    assert S.Join([a]) == a;
    assert |"/" + a + "/."| != |"/" + a|;
    NormalizeOfRootName(fs, a);
  }

  /** `/a` is already normalized. */
  lemma NormalizeOfRootName(fs: FsId, a: string)
    requires Clean(a)
    ensures Normalize(Path(fs, "/" + a)) == Path(fs, "/" + a)
  {
    NamesOfCanonical(true, [a]);
    assert S.Join([a]) == a;
    NormPiecesCanonical(true, [a]);
    NormalizeText(Path(fs, "/" + a));
  }

  /**
    `startsWith` compares text, not names: `/a/bc` starts with `/a/b` though
    its second name is `bc`, not `b`.
   */
  lemma StartsWithIsTextual(fs: FsId, a: string, b: string, c: string)
    requires Clean(a) && Clean(b) && Clean(c)
    ensures StartsWith(Path(fs, "/" + a + "/" + b + c), Path(fs, "/" + a + "/" + b))
    ensures GetName(Path(fs, "/" + a + "/" + b + c), 1) != GetName(Path(fs, "/" + a + "/" + b), 1)
  {
    var bc := b + c;
    S.NotInConcat(S.Slash, b, c);
    assert "/" + a + "/" + bc == "/" + a + "/" + b + c;
    SecondName(fs, a, bc);
    SecondName(fs, a, b);
    assert |bc| > |b|;
  }

  /** The second name of `/x/y`. */
  lemma SecondName(fs: FsId, x: string, y: string)
    requires x != "" && y != "" && S.Slash !in x && S.Slash !in y
    ensures GetName(Path(fs, "/" + x + "/" + y), 1) == Ok(Path(fs, y))
  {
    TwoNames(x, y);
  }

  /**
    `endsWith` compares text, not names: `/ab` ends with `b` though its file
    name is `ab`, not `b`.
   */
  lemma EndsWithIsTextual(fs: FsId, a: string, b: string)
    requires Clean(a) && Clean(b)
    ensures EndsWith(Path(fs, "/" + a + b), Path(fs, b))
    ensures GetFileName(Path(fs, "/" + a + b)) != Some(Path(fs, b))
  {
    var ab := a + b;
    assert "/" + a + b == "/" + ab;
    S.NotInConcat(S.Slash, a, b);
    assert S.EndsWith("/" + ab, b) by {
      assert ("/" + ab)[|"/" + ab| - |b|..] == b;
    }
    FileNameOfRootName(fs, ab);
    assert |ab| > |b|;
  }

  /** The file name of `/x`, for a non-empty slash-free `x`, is `x`. */
  lemma FileNameOfRootName(fs: FsId, x: string)
    requires x != "" && S.Slash !in x
    ensures GetFileName(Path(fs, "/" + x)) == Some(Path(fs, x))
  {
    var s := "/" + x;
    assert s[|s| - 1] == x[|x| - 1] && x[|x| - 1] in x;
    assert S.LastIndexOf(s, S.Slash) == 0 by {
      assert s == "" + [S.Slash] + x;
      S.LastIndexOfConcat("", S.Slash, x);
    }
    assert s[1..] == x;
  }

  /**
    Resolving a relative path only appends text: the result starts with
    this path and ends with the other, for every pair of paths.
   */
  lemma ResolveExtendsText(p: Path, q: Path)
    requires !IsAbsolute(q)
    ensures StartsWith(Resolve(p, q), p) && EndsWith(Resolve(p, q), q)
  {
    var r := Resolve(p, q).str;
    if S.EndsWith(p.str, "/") {
      assert r == p.str + q.str;
    } else {
      assert r == p.str + "/" + q.str;
      assert r == p.str + ("/" + q.str);
    }
    assert r[..|p.str|] == p.str;
    assert r[|r| - |q.str|..] == q.str;
  }

  /** `startsWith` is a partial order on texts: reflexive, antisymmetric and transitive. */
  lemma StartsWithIsPrefixOrder(p: Path, q: Path, r: Path)
    ensures StartsWith(p, p)
    ensures StartsWith(p, q) && StartsWith(q, p) ==> p.str == q.str
    ensures StartsWith(p, q) && StartsWith(q, r) ==> StartsWith(p, r)
  {
    if StartsWith(p, q) && StartsWith(q, r) {
      assert p.str[..|r.str|] == q.str[..|r.str|];
    }
  }

  /** `toRealPath` is idempotent. */
  lemma ToRealPathIdempotent(p: Path)
    ensures ToRealPath(ToRealPath(p)) == ToRealPath(p)
  {
    NormalizeIdempotent(ToAbsolutePath(p));
  }

  /** `toRealPath` gives a normalized path equal to the absolute form. */
  lemma ToRealPathIsNormalAbsolute(p: Path)
    ensures Normalize(ToRealPath(p)) == ToRealPath(p)
    ensures Equals(ToRealPath(p), ToAbsolutePath(p))
  {
    NormalizeIdempotent(ToAbsolutePath(p));
  }

  /** `toAbsolutePath` is idempotent. */
  lemma ToAbsolutePathIdempotent(p: Path)
    ensures ToAbsolutePath(ToAbsolutePath(p)) == ToAbsolutePath(p)
  {
  }
}
