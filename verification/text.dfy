/** The three library string operations the output-name rule is built from:
    `str.strip("/")`, `str.replace("/", "_")` and `os.path.join`, together with
    `os.path.basename` as the inverse of joining. */
module Text {

  /** Every character of `s` in positions `from` up to `to` is '/'. */
  predicate SlashesIn(s: string, from: nat, to: nat)
    requires to <= |s|
  {
    forall i | from <= i < to :: s[i] == '/'
  }

  predicate AllSlashes(s: string) {
    SlashesIn(s, 0, |s|)
  }

  /** Neither starts nor ends with '/' (the empty string qualifies). */
  predicate SlashTrimmed(s: string) {
    |s| == 0 || (s[0] != '/' && s[|s| - 1] != '/')
  }

  /** `t` sits at offset `lo` of `s`, only slashes surround it, and it has no
      slash at either end: the shape of `s.strip("/")`, stated without saying
      how it is computed. */
  predicate IsSlashStripOf(s: string, lo: nat, t: string) {
    && lo + |t| <= |s|
    && (forall i | 0 <= i < |t| :: s[lo + i] == t[i])
    && SlashesIn(s, 0, lo)
    && SlashesIn(s, lo + |t|, |s|)
    && SlashTrimmed(t)
  }

  /** The first position at or after `i` that does not hold '/' (or `|s|`). */
  function SkipSlashes(s: string, i: nat): (n: nat)
    requires i <= |s|
    ensures i <= n <= |s|
    ensures SlashesIn(s, i, n)
    ensures n == |s| || s[n] != '/'
    decreases |s| - i
  {
    if i < |s| && s[i] == '/' then SkipSlashes(s, i + 1) else i
  }

  /** Walking back from `j`, but not past `lo`, the end of the last run of
      non-slash characters (or `lo`). */
  function SkipSlashesBack(s: string, lo: nat, j: nat): (n: nat)
    requires lo <= j <= |s|
    ensures lo <= n <= j
    ensures SlashesIn(s, n, j)
    ensures n == lo || s[n - 1] != '/'
    decreases j
  {
    if j > lo && s[j - 1] == '/' then SkipSlashesBack(s, lo, j - 1) else j
  }

  /** Where `s.strip("/")` starts. */
  function StripStart(s: string): nat {
    SkipSlashes(s, 0)
  }

  /** Python's strip with '/' as the character set: every leading and every
      trailing '/' removed. */
  function Strip(s: string): (r: string)
    ensures IsSlashStripOf(s, StripStart(s), r)
  {
    var lo := StripStart(s);
    var hi := SkipSlashesBack(s, lo, |s|);
    s[lo..hi]
  }

  /** Forward scanning stops at exactly the first non-slash position. */
  lemma {:induction false} SkipSlashesUnique(s: string, i: nat, n: nat)
    requires i <= n <= |s|
    requires SlashesIn(s, i, n)
    requires n == |s| || s[n] != '/'
    ensures SkipSlashes(s, i) == n
    decreases n - i
  {
    if i < n {
      SkipSlashesUnique(s, i + 1, n);
    }
  }

  /** Backward scanning stops at exactly the end of the last non-slash run. */
  lemma {:induction false} SkipSlashesBackUnique(s: string, lo: nat, j: nat, n: nat)
    requires lo <= n <= j <= |s|
    requires SlashesIn(s, n, j)
    requires n == lo || s[n - 1] != '/'
    ensures SkipSlashesBack(s, lo, j) == n
    decreases j - n
  {
    if n < j {
      SkipSlashesBackUnique(s, lo, j - 1, n);
    }
  }

  /** The strip shape determines the result: whatever decomposition of `s`
      has the shape of `IsSlashStripOf` yields exactly `Strip(s)`. */
  lemma StripUnique(s: string, lo: nat, t: string)
    requires IsSlashStripOf(s, lo, t)
    ensures Strip(s) == t
  {
    if |t| == 0 {
      assert SlashesIn(s, 0, |s|) by {
        forall i | 0 <= i < |s|
          ensures s[i] == '/'
        {
          if i < lo {
            assert SlashesIn(s, 0, lo);
          }
        }
      }
      SkipSlashesUnique(s, 0, |s|);
      SkipSlashesBackUnique(s, |s|, |s|, |s|);
    } else {
      assert s[lo + 0] == t[0];
      SkipSlashesUnique(s, 0, lo);
      assert s[lo + (|t| - 1)] == t[|t| - 1];
      SkipSlashesBackUnique(s, lo, |s|, lo + |t|);
      assert s[lo..lo + |t|] == t;
    }
  }

  /** `s.strip("/")` is empty exactly when `s` consists of slashes only. */
  lemma StripEmptyIff(s: string)
    ensures Strip(s) == [] <==> AllSlashes(s)
  {
    var lo := StripStart(s);
    if Strip(s) == [] {
      assert SlashesIn(s, 0, lo) && SlashesIn(s, lo, |s|);
    } else {
      assert s[lo + 0] == Strip(s)[0];
    }
  }

  /** A slash in front never survives stripping. */
  lemma StripIgnoresLeadingSlash(s: string)
    ensures Strip("/" + s) == Strip(s)
  {
    var lo := StripStart(s);
    var t := Strip(s);
    var s1 := "/" + s;
    assert IsSlashStripOf(s1, lo + 1, t) by {
      forall i | 0 <= i < |t|
        ensures s1[lo + 1 + i] == t[i]
      {
        assert s1[lo + 1 + i] == s[lo + i];
      }
      forall i | 0 <= i < lo + 1
        ensures s1[i] == '/'
      {
        if i > 0 {
          assert s1[i] == s[i - 1];
        }
      }
      forall i | lo + 1 + |t| <= i < |s1|
        ensures s1[i] == '/'
      {
        assert s1[i] == s[i - 1];
      }
    }
    StripUnique(s1, lo + 1, t);
  }

  /** A slash at the end never survives stripping. */
  lemma StripIgnoresTrailingSlash(s: string)
    ensures Strip(s + "/") == Strip(s)
  {
    var lo := StripStart(s);
    var t := Strip(s);
    var s2 := s + "/";
    assert IsSlashStripOf(s2, lo, t) by {
      forall i | 0 <= i < |s|
        ensures s2[i] == s[i]
      {
      }
    }
    StripUnique(s2, lo, t);
  }

  /** A string with no slash at either end is its own strip. */
  lemma StripOfTrimmed(s: string)
    requires SlashTrimmed(s)
    ensures Strip(s) == s
  {
    assert IsSlashStripOf(s, 0, s);
    StripUnique(s, 0, s);
  }

  /** Stripping twice strips nothing more. */
  lemma StripIdempotent(s: string)
    ensures Strip(Strip(s)) == Strip(s)
  {
    StripOfTrimmed(Strip(s));
  }

  /** The bounds of `s.strip("/")` found by two index scans, one forward
      over the leading slashes and one backward over the trailing ones. */
  method StripBounds(s: string) returns (lo: nat, hi: nat)
    ensures lo <= hi <= |s|
    ensures s[lo..hi] == Strip(s)
  {
    lo := 0;
    while lo < |s| && s[lo] == '/'
      invariant lo <= |s|
      invariant SlashesIn(s, 0, lo)
    {
      lo := lo + 1;
    }
    hi := |s|;
    while hi > lo && s[hi - 1] == '/'
      invariant lo <= hi <= |s|
      invariant SlashesIn(s, hi, |s|)
    {
      hi := hi - 1;
    }
    StripUnique(s, lo, s[lo..hi]);
  }

  /** Python's replace of '/' by '_': the pattern is one character long, so every '/'
      becomes '_' in place and every other character stays. */
  function ReplaceSlashes(s: string): (r: string)
    ensures |r| == |s|
    ensures forall i :: 0 <= i < |s| ==> r[i] == (if s[i] == '/' then '_' else s[i])
    ensures '/' !in r
  {
    if |s| == 0 then []
    else [if s[0] == '/' then '_' else s[0]] + ReplaceSlashes(s[1..])
  }

  /** Replacement changes a string exactly when it holds a '/'. */
  lemma ReplaceSlashesIdentityIff(s: string)
    ensures ReplaceSlashes(s) == s <==> '/' !in s
  {
    if '/' in s {
      var i :| 0 <= i < |s| && s[i] == '/';
      assert ReplaceSlashes(s)[i] != s[i];
    }
  }

  /** After replacement a '/' and a '_' in the same position are
      indistinguishable. */
  lemma ReplaceSlashesMergesSeparators(a: string, b: string)
    ensures ReplaceSlashes(a + "/" + b) == ReplaceSlashes(a + "_" + b)
  {
    var p := a + "/" + b;
    var q := a + "_" + b;
    forall i | 0 <= i < |p|
      ensures ReplaceSlashes(p)[i] == ReplaceSlashes(q)[i]
    {
      if i < |a| {
        assert p[i] == a[i] == q[i];
      } else if i > |a| {
        assert p[i] == b[i - |a| - 1] == q[i];
      } else {
        assert p[i] == '/' && q[i] == '_';
      }
    }
  }

  /** The same replacement, computed by a copying loop. */
  method ReplaceSlashesScan(s: string) returns (r: string)
    ensures r == ReplaceSlashes(s)
  {
    r := "";
    var k := 0;
    while k < |s|
      invariant k <= |s|
      invariant |r| == k
      invariant forall m :: 0 <= m < k ==> r[m] == (if s[m] == '/' then '_' else s[m])
    {
      r := r + [if s[k] == '/' then '_' else s[k]];
      k := k + 1;
    }
  }

  /** The directory part `os.path.join(dir, name)` puts before a relative
      `name`: nothing is added after an empty directory or one that already
      ends in '/'. */
  function DirPrefix(dir: string): (p: string)
    ensures p == dir || p == dir + "/"
    ensures p == dir <==> (|dir| == 0 || dir[|dir| - 1] == '/')
    ensures |p| == 0 || p[|p| - 1] == '/'
  {
    if |dir| == 0 || dir[|dir| - 1] == '/' then dir else dir + "/"
  }

  /** Joining a directory and a file name under POSIX path rules: an absolute `name`
      discards `dir`. */
  function Join(dir: string, name: string): (p: string)
    ensures |p| >= |name| && p[|p| - |name|..] == name
    ensures |name| > 0 && name[0] == '/' ==> p == name
    ensures (|name| == 0 || name[0] != '/') ==> p[..|p| - |name|] == DirPrefix(dir)
  {
    if |name| > 0 && name[0] == '/' then name else DirPrefix(dir) + name
  }

  /** The final path component (POSIX basename): the text after the last '/'. */
  function LastSegment(p: string): (r: string)
    ensures '/' !in r
    ensures |r| <= |p| && p[|p| - |r|..] == r
    ensures |r| == |p| || p[|p| - |r| - 1] == '/'
  {
    if |p| == 0 || p[|p| - 1] == '/' then []
    else LastSegment(p[..|p| - 1]) + [p[|p| - 1]]
  }

  /** A slash-free segment after a directory ending in '/' is exactly what
      `basename` recovers. */
  lemma {:induction false} LastSegmentAfterSlash(a: string, b: string)
    requires '/' !in b
    requires |a| == 0 || a[|a| - 1] == '/'
    ensures LastSegment(a + b) == b
    decreases |b|
  {
    var ab := a + b;
    if |b| == 0 {
      assert ab == a;
    } else {
      var b' := b[..|b| - 1];
      var c := b[|b| - 1];
      assert b == b' + [c];
      assert '/' !in b' && c != '/';
      assert ab[..|ab| - 1] == a + b';
      assert ab[|ab| - 1] == c;
      LastSegmentAfterSlash(a, b');
    }
  }

  /** Taking the final component of a joined path gives back any slash-free
      file name. */
  lemma JoinThenLastSegment(dir: string, name: string)
    requires '/' !in name
    ensures LastSegment(Join(dir, name)) == name
  {
    LastSegmentAfterSlash(DirPrefix(dir), name);
  }
}
