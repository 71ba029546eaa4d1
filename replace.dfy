/**
 * How the SFTP collection copy names its targets. The source computes the
 * target identifier of every item below the copied collection with a
 * replace-all string substitution of the source identifier by the
 * destination identifier. What is meant is substituting the leading source
 * identifier only, which is what Paths.Rebase does and what the copy model
 * uses. The two differ as soon as the source identifier occurs again further
 * down the item's identifier.
 */
module Replace {
  import opened Paths

  /** The slash-separated identifier of a path ("/a/b"); the root renders as the empty string. */
  function Render(p: Path): (s: string)
    ensures p != [] ==> |s| > 0 && s[0] == '/'
    decreases |p|
  {
    if p == [] then "" else "/" + p[0] + Render(p[1..])
  }

  lemma {:induction false} RenderConcat(a: Path, b: Path)
    ensures Render(a + b) == Render(a) + Render(b)
    decreases |a|
  {
    if a == [] {
      assert a + b == b;
    } else {
      assert (a + b)[0] == a[0] && (a + b)[1..] == a[1..] + b;
      RenderConcat(a[1..], b);
      assert Render(a) == "/" + a[0] + Render(a[1..]);
      assert Render(a + b) == "/" + a[0] + (Render(a[1..]) + Render(b));
      assert "/" + a[0] + (Render(a[1..]) + Render(b)) == ("/" + a[0] + Render(a[1..])) + Render(b);
    }
  }

  /** Whether pattern occurs in s at position i. */
  predicate OccursAt(pattern: string, s: string, i: int)
  {
    0 <= i && i + |pattern| <= |s| && s[i..i + |pattern|] == pattern
  }

  /** Whether pattern occurs in s. */
  ghost predicate Occurs(pattern: string, s: string)
  {
    exists i :: OccursAt(pattern, s, i)
  }

  /** Python's str.replace for an empty pattern: replacement before every character and at the end. */
  function Interleave(s: string, replacement: string): (r: string)
    ensures |r| == |s| + (|s| + 1) * |replacement|
    decreases |s|
  {
    if s == [] then replacement else replacement + [s[0]] + Interleave(s[1..], replacement)
  }

  /** Python's str.replace: every non-overlapping occurrence of pattern, left to right. */
  function ReplaceAll(s: string, pattern: string, replacement: string): string
    decreases |s|
  {
    if |pattern| == 0 then Interleave(s, replacement)
    else if |s| < |pattern| then s
    else if s[..|pattern|] == pattern then replacement + ReplaceAll(s[|pattern|..], pattern, replacement)
    else [s[0]] + ReplaceAll(s[1..], pattern, replacement)
  }

  /** A non-empty pattern that does not occur leaves the string alone. */
  lemma {:induction false} ReplaceAbsent(s: string, pattern: string, replacement: string)
    requires |pattern| > 0 && !Occurs(pattern, s)
    ensures ReplaceAll(s, pattern, replacement) == s
    decreases |s|
  {
    if |s| >= |pattern| {
      assert !OccursAt(pattern, s, 0);
      assert s[0..0 + |pattern|] == s[..|pattern|];
      forall i | 0 <= i && i + |pattern| <= |s[1..]| ensures !OccursAt(pattern, s[1..], i) {
        assert s[1..][i..i + |pattern|] == s[i + 1..i + 1 + |pattern|];
        assert !OccursAt(pattern, s, i + 1);
      }
      ReplaceAbsent(s[1..], pattern, replacement);
    }
  }

  /** A leading occurrence is replaced, and the scan goes on after it. */
  lemma ReplaceLeading(pattern: string, t: string, replacement: string)
    requires |pattern| > 0
    ensures ReplaceAll(pattern + t, pattern, replacement) == replacement + ReplaceAll(t, pattern, replacement)
  {
    assert (pattern + t)[..|pattern|] == pattern;
    assert (pattern + t)[|pattern|..] == t;
  }

  /** The target the as-written copy computes for item q when copying src to dst. */
  function AsWrittenTarget(q: Path, src: Path, dst: Path): string
  {
    ReplaceAll(Render(q), Render(src), Render(dst))
  }

  /** The target the copy means: the leading source identifier replaced by the destination identifier. */
  function IntendedTarget(q: Path, src: Path, dst: Path): (s: string)
    requires src <= q
    ensures Render(src) <= Render(q) && s == Render(dst) + Render(q)[|Render(src)|..]
  {
    RenderConcat(src, q[|src|..]);
    assert q == src + q[|src|..];
    RenderConcat(dst, q[|src|..]);
    Render(Rebase(q, src, dst))
  }

  /**
   * Copying "/a" to "/c" when "/a" holds a collection "a": the replace-all
   * sends "/a/a" to "/c/c" instead of "/c/a".
   */
  lemma AsWrittenMisplaces()
    ensures AsWrittenTarget(["a", "a"], ["a"], ["c"]) == "/c/c"
    ensures IntendedTarget(["a", "a"], ["a"], ["c"]) == "/c/a"
  {
    var s, pat, rep := "/a/a", "/a", "/c";
    assert Render(["a", "a"]) == s;
    assert Render(["a"]) == pat;
    assert Render(["c"]) == rep;
    ReplaceLeading(pat, "/a", rep);
    ReplaceLeading(pat, "", rep);
    assert pat + "/a" == s && pat + "" == "/a";
    assert Rebase(["a", "a"], ["a"], ["c"]) == ["c", "a"];
  }

  /** The two agree when the source identifier does not occur again below the copied root. */
  lemma AsWrittenAgrees(q: Path, src: Path, dst: Path)
    requires src != [] && src <= q
    requires !Occurs(Render(src), Render(q[|src|..]))
    ensures AsWrittenTarget(q, src, dst) == IntendedTarget(q, src, dst)
  {
    assert q == src + q[|src|..];
    RenderConcat(src, q[|src|..]);
    RenderConcat(dst, q[|src|..]);
    ReplaceLeading(Render(src), Render(q[|src|..]), Render(dst));
    ReplaceAbsent(Render(q[|src|..]), Render(src), Render(dst));
  }
}
