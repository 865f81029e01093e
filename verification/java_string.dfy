/**
  The parts of java.lang.String that the path code relies on, over `string`
  (`seq<char>`): prefix and suffix tests, `lastIndexOf`, `split("/")`,
  `String.join("/", ...)`, `compareTo`, `equalsIgnoreCase` and `hashCode`.
 */
module JavaString {

  /** The one separator the virtual file system knows. */
  const Slash: char := '/'

  /** `s.startsWith(prefix)` */
  predicate StartsWith(s: string, prefix: string) {
    prefix <= s
  }

  /** `s.endsWith(suffix)` */
  predicate EndsWith(s: string, suffix: string) {
    |suffix| <= |s| && s[|s| - |suffix|..] == suffix
  }

  /** `s.lastIndexOf(c)`: the greatest index holding `c`, or -1 when there is none. */
  function LastIndexOf(s: string, c: char): (r: int)
    ensures -1 <= r < |s|
    ensures 0 <= r ==> s[r] == c
    ensures forall k :: r < k < |s| ==> s[k] != c
  {
    if |s| == 0 then -1
    else if s[|s| - 1] == c then |s| - 1
    else LastIndexOf(s[..|s| - 1], c)
  }

  /** A character in neither part is not in their concatenation. */
  lemma NotInConcat(c: char, a: string, b: string)
    requires c !in a && c !in b
    ensures c !in a + b
  {
    forall k | 0 <= k < |a + b| ensures (a + b)[k] != c {
      if k < |a| { assert (a + b)[k] == a[k]; } else { assert (a + b)[k] == b[k - |a|]; }
    }
  }

  /** The last `c` of `x`, `c`, `y` is the one between them when `y` holds none. */
  lemma {:induction false} LastIndexOfConcat(x: string, c: char, y: string)
    requires c !in y
    ensures LastIndexOf(x + [c] + y, c) == |x|
    decreases |y|
  {
    var s := x + [c] + y;
    if |y| > 0 {
      var y' := y[..|y| - 1];
      assert s[|s| - 1] == y[|y| - 1] && y[|y| - 1] in y;
      assert s[..|s| - 1] == x + [c] + y';
      assert c !in y' by {
        assert forall k :: 0 <= k < |y'| ==> y'[k] == y[k] && y[k] in y;
      }
      LastIndexOfConcat(x, c, y');
    }
  }

  /** `String.join("/", parts)`: the parts with one slash between neighbours. */
  function Join(parts: seq<string>): string
  {
    if |parts| == 0 then ""
    else if |parts| == 1 then parts[0]
    else parts[0] + "/" + Join(parts[1..])
  }

  /**
    Every maximal slash-free piece of `s`, empty ones included: a string with
    k slashes has k + 1 pieces. Java's `split` starts from this list.
   */
  function Pieces(s: string): (r: seq<string>)
    ensures |r| >= 1
    ensures forall i :: 0 <= i < |r| ==> Slash !in r[i]
    ensures Join(r) == s
  {
    if |s| == 0 then [""]
    else
      var rest := Pieces(s[1..]);
      assert s == [s[0]] + s[1..];
      if s[0] == Slash then
        assert ([""] + rest)[1..] == rest;
        [""] + rest
      else
        var r := [[s[0]] + rest[0]] + rest[1..];
        assert |rest| > 1 ==> Join(rest) == rest[0] + "/" + Join(rest[1..]);
        assert r[1..] == rest[1..];
        r
  }

  /** Removes every empty string at the end of `xs`. */
  function DropTrailingEmpty(xs: seq<string>): (r: seq<string>)
    ensures r <= xs
    ensures r == [] || r[|r| - 1] != ""
    ensures forall i :: |r| <= i < |xs| ==> xs[i] == ""
  {
    if |xs| > 0 && xs[|xs| - 1] == "" then DropTrailingEmpty(xs[..|xs| - 1]) else xs
  }

  /**
    `s.split("/")`: a string without a slash (the empty one included) splits
    to itself alone; otherwise the pieces lose every trailing empty string,
    while empty pieces before the last non-empty one are kept.
   */
  function Split(s: string): (r: seq<string>)
    ensures forall i :: 0 <= i < |r| ==> Slash !in r[i]
    ensures r == [""] <==> s == ""
    ensures s == "" || r == [] || r[|r| - 1] != ""
    ensures Join(r) <= s
    ensures forall k :: |Join(r)| <= k < |s| ==> s[k] == Slash
  {
    if Slash !in s then [s]
    else
      var pieces := Pieces(s);
      JoinDropTrailing(pieces);
      DropTrailingEmpty(pieces)
  }

  /** Joining a list and then adding one more part adds a slash and that part. */
  lemma {:induction false} JoinSnoc(xs: seq<string>, y: string)
    requires |xs| >= 1
    ensures Join(xs + [y]) == Join(xs) + "/" + y
    decreases |xs|
  {
    if |xs| == 1 {
      assert xs + [y] == [xs[0], y];
      assert [xs[0], y][1..] == [y];
    } else {
      assert (xs + [y])[1..] == xs[1..] + [y];
      JoinSnoc(xs[1..], y);
    }
  }

  /** Joining two or more parts: the join of all but the last, a slash, and the last part. */
  lemma {:induction false} JoinInitLast(xs: seq<string>)
    requires |xs| >= 2
    ensures Join(xs) == Join(xs[..|xs| - 1]) + "/" + xs[|xs| - 1]
    decreases |xs|
  {
    var n := |xs|;
    var init := xs[..n - 1];
    if n == 2 {
      assert init == [xs[0]];
    } else {
      var tail := xs[1..];
      JoinInitLast(tail);
      assert tail[..|tail| - 1] == init[1..];
      var j := Join(init[1..]);
      assert xs[0] + "/" + (j + "/" + xs[n - 1]) == (xs[0] + "/" + j) + "/" + xs[n - 1];
    }
  }

  /** Dropping the trailing empty parts removes only trailing slashes from the joined text. */
  lemma {:induction false} JoinDropTrailing(xs: seq<string>)
    ensures Join(DropTrailingEmpty(xs)) <= Join(xs)
    ensures forall k :: |Join(DropTrailingEmpty(xs))| <= k < |Join(xs)| ==> Join(xs)[k] == Slash
    decreases |xs|
  {
    if |xs| > 0 && xs[|xs| - 1] == "" {
      var init := xs[..|xs| - 1];
      assert xs == init + [""];
      JoinDropTrailing(init);
      if |init| >= 1 {
        JoinSnoc(init, "");
        assert Join(xs) == Join(init) + "/";
      } else {
        assert xs == [""];
      }
    }
  }

  /** The first part begins the joined text. */
  lemma {:induction false} JoinStartsWithFirst(xs: seq<string>)
    requires |xs| >= 1
    ensures StartsWith(Join(xs), xs[0])
  {
  }

  /** The last part ends the joined text. */
  lemma {:induction false} JoinEndsWithLast(xs: seq<string>)
    requires |xs| >= 1
    ensures EndsWith(Join(xs), xs[|xs| - 1])
    decreases |xs|
  {
    if |xs| > 1 {
      JoinEndsWithLast(xs[1..]);
    }
  }

  /** Pieces distributes over a slash: the pieces of `a/b` are those of `a` followed by those of `b`. */
  lemma {:induction false} PiecesConcat(a: string, b: string)
    ensures Pieces(a + "/" + b) == Pieces(a) + Pieces(b)
    decreases |a|
  {
    var s := a + "/" + b;
    if |a| == 0 {
      assert s == "/" + b;
      assert s[1..] == b;
    } else {
      assert s[0] == a[0];
      assert s[1..] == a[1..] + "/" + b;
      PiecesConcat(a[1..], b);
    }
  }

  /** A string without a slash is its own single piece. */
  lemma {:induction false} PiecesNoSlash(s: string)
    requires Slash !in s
    ensures Pieces(s) == [s]
    decreases |s|
  {
    if |s| > 0 {
      assert Slash !in s[1..] by {
        forall k | 0 <= k < |s[1..]| ensures s[1..][k] != Slash {
          assert s[1..][k] == s[k + 1];
        }
      }
      PiecesNoSlash(s[1..]);
      assert s == [s[0]] + s[1..];
    }
  }

  /** Pieces undoes Join on slash-free parts: the two are inverse. */
  lemma {:induction false} PiecesJoin(xs: seq<string>)
    requires |xs| >= 1
    requires forall i :: 0 <= i < |xs| ==> Slash !in xs[i]
    ensures Pieces(Join(xs)) == xs
    decreases |xs|
  {
    PiecesNoSlash(xs[0]);
    if |xs| > 1 {
      PiecesJoin(xs[1..]);
      PiecesConcat(xs[0], Join(xs[1..]));
      assert xs == [xs[0]] + xs[1..];
    }
  }

  /** Split undoes Join when the parts are slash-free and the last one is non-empty. */
  lemma SplitJoin(xs: seq<string>)
    requires |xs| >= 1
    requires forall i :: 0 <= i < |xs| ==> Slash !in xs[i]
    requires xs[|xs| - 1] != ""
    ensures Split(Join(xs)) == xs
  {
    PiecesJoin(xs);
    var s := Join(xs);
    if Slash !in s {
      PiecesNoSlash(s);
    }
  }

  /** A trailing empty part never survives Split's trimming. */
  lemma {:induction false} DropTrailingEmptySnoc(xs: seq<string>)
    ensures DropTrailingEmpty(xs + [""]) == DropTrailingEmpty(xs)
  {
    assert (xs + [""])[..|xs|] == xs;
  }

  /**
    `a.compareTo(b)`: the difference of the first differing characters, or
    else the difference of the lengths.
   */
  function CompareTo(a: string, b: string): (r: int)
    ensures r == 0 <==> a == b
  {
    if |a| == 0 || |b| == 0 then |a| - |b|
    else if a[0] != b[0] then a[0] as int - b[0] as int
    else
      assert a == [a[0]] + a[1..] && b == [b[0]] + b[1..];
      CompareTo(a[1..], b[1..])
  }

  /** Swapping the operands of `compareTo` negates the result. */
  lemma {:induction false} CompareToAntisymmetric(a: string, b: string)
    ensures CompareTo(a, b) == -CompareTo(b, a)
    decreases |a|
  {
    if |a| > 0 && |b| > 0 && a[0] == b[0] {
      CompareToAntisymmetric(a[1..], b[1..]);
    }
  }

  /** The order `compareTo` induces is transitive. */
  lemma {:induction false} CompareToTransitive(a: string, b: string, c: string)
    requires CompareTo(a, b) < 0 && CompareTo(b, c) < 0
    ensures CompareTo(a, c) < 0
    decreases |a|
  {
    if |a| > 0 && |b| > 0 && |c| > 0 && a[0] == b[0] && b[0] == c[0] {
      CompareToTransitive(a[1..], b[1..], c[1..]);
    }
  }

  /** Upper-cases an ASCII letter and leaves every other character alone. */
  function ToUpperAscii(c: char): char {
    if 'a' <= c <= 'z' then (c as int - 32) as char else c
  }

  /** Lower-cases an ASCII letter and leaves every other character alone. */
  function ToLowerAscii(c: char): char {
    if 'A' <= c <= 'Z' then (c as int + 32) as char else c
  }

  /** The per-character test of `regionMatches(true, ...)`. */
  predicate CharEqualsIgnoreCase(c1: char, c2: char) {
    || c1 == c2
    || ToUpperAscii(c1) == ToUpperAscii(c2)
    || ToLowerAscii(ToUpperAscii(c1)) == ToLowerAscii(ToUpperAscii(c2))
  }

  /**
    `s.equalsIgnoreCase(t)`: equal lengths and every character pair equal up
    to case; that is, exactly when the lower-case forms are equal.
   */
  function EqualsIgnoreCase(s: string, t: string): (r: bool)
    ensures r ==> |s| == |t|
    ensures r <==> LowerAscii(s) == LowerAscii(t)
  {
    var r := |s| == |t| && forall i :: 0 <= i < |s| ==> CharEqualsIgnoreCase(s[i], t[i]);
    assert r <== LowerAscii(s) == LowerAscii(t) by {
      if LowerAscii(s) == LowerAscii(t) {
        forall i | 0 <= i < |s| ensures CharEqualsIgnoreCase(s[i], t[i]) {
          assert LowerAscii(s)[i] == LowerAscii(t)[i];
        }
      }
    }
    r
  }

  /** The lower-case form of a string, character by character. */
  function LowerAscii(s: string): (r: string)
    ensures |r| == |s|
    ensures forall i :: 0 <= i < |s| ==> r[i] == ToLowerAscii(s[i])
  {
    seq(|s|, i requires 0 <= i < |s| => ToLowerAscii(s[i]))
  }

  const TwoTo31: int := 0x8000_0000
  const TwoTo32: int := 0x1_0000_0000

  /** Java `int` arithmetic: the 32-bit two's-complement value congruent to `x`. */
  function WrapInt32(x: int): (r: int)
    ensures -TwoTo31 <= r < TwoTo31
    ensures (x - r) % TwoTo32 == 0
  {
    (x + TwoTo31) % TwoTo32 - TwoTo31
  }

  /** `s.hashCode()`: the polynomial hash with multiplier 31, wrapped to 32 bits at each step. */
  function HashCode(s: string): (r: int)
    ensures -TwoTo31 <= r < TwoTo31
  {
    if |s| == 0 then 0 else WrapInt32(31 * HashCode(s[..|s| - 1]) + s[|s| - 1] as int)
  }

  /** Two parts join with one slash. */
  lemma JoinTwo(x: string, y: string)
    ensures Join([x, y]) == x + "/" + y
  {
    assert [x, y][1..] == [y];
  }

  /** Three parts join with two slashes. */
  lemma JoinThree(x: string, y: string, z: string)
    ensures Join([x, y, z]) == x + "/" + y + "/" + z
  {
    assert [x, y, z][1..] == [y, z] && [y, z][1..] == [z];
    assert Join([y, z]) == y + "/" + z;
    assert x + "/" + (y + "/" + z) == x + "/" + y + "/" + z;
  }
}
