/** The pieces of Python's `os.path` (POSIX flavour) and `str.lower` that the
    image validator and the record builder rely on. The separator is '/',
    there is no alternative separator. */
module Paths {

  /** `s.rfind(c)`: the index of the last occurrence of `c` in `s`, or -1. */
  function RFind(s: string, c: char): (r: int)
    ensures -1 <= r < |s|
    ensures r >= 0 ==> s[r] == c
    ensures forall i :: r < i < |s| ==> s[i] != c
  {
    if |s| == 0 then -1
    else if s[|s| - 1] == c then |s| - 1
    else RFind(s[..|s| - 1], c)
  }

  /** `rfind` is pinned down by where the character occurs last. */
  lemma RFindIs(s: string, c: char, k: int)
    requires -1 <= k < |s| && (k >= 0 ==> s[k] == c)
    requires forall i :: k < i < |s| ==> s[i] != c
    ensures RFind(s, c) == k
  {
  }

  /** `os.path.basename(p)`: everything after the last '/'. */
  function Basename(p: string): (b: string)
    ensures '/' !in b
    ensures |b| <= |p| && b == p[|p| - |b|..]
    ensures |b| < |p| ==> p[|p| - |b| - 1] == '/'
  {
    p[RFind(p, '/') + 1..]
  }

  /** True when every character of `s` is a dot (the empty string included):
      the scan `_splitext` makes over the leading characters of the basename. */
  predicate AllDots(s: string) {
    |s| == 0 || (s[0] == '.' && AllDots(s[1..]))
  }

  /** The scan agrees with its pointwise reading. */
  lemma {:induction false} AllDotsIff(s: string)
    ensures AllDots(s) <==> forall i :: 0 <= i < |s| ==> s[i] == '.'
  {
    if |s| > 0 {
      AllDotsIff(s[1..]);
      if s[0] == '.' && AllDots(s[1..]) {
        forall i | 0 <= i < |s| ensures s[i] == '.' {
          if i > 0 { assert s[i] == s[1..][i - 1]; }
        }
      }
    }
  }

  /** `os.path.splitext(p)`, as CPython's `genericpath._splitext` computes it:
      the extension starts at the last dot of the final path component, unless
      everything in that component before the dot is a dot too (a hidden file
      such as `.png` has no extension). */
  function SplitExt(p: string): (parts: (string, string))
    ensures parts.0 + parts.1 == p
    ensures parts.1 != [] ==> parts.1[0] == '.'
    ensures forall i :: 0 <= i < |parts.1| ==> parts.1[i] != '/' && (i > 0 ==> parts.1[i] != '.')
  {
    var sepIndex := RFind(p, '/');
    var dotIndex := RFind(p, '.');
    var hasStem := dotIndex > sepIndex && !AllDots(p[sepIndex + 1..dotIndex]);
    if hasStem then
      TailAfterLastDot(p, sepIndex, dotIndex);
      (p[..dotIndex], p[dotIndex..])
    else
      (p, [])
  }

  /** From the last dot on, a path holds neither a '/' (when the dot is in the
      final component) nor another dot. */
  lemma TailAfterLastDot(p: string, sepIndex: int, dotIndex: int)
    requires sepIndex == RFind(p, '/') && dotIndex == RFind(p, '.') && sepIndex < dotIndex
    ensures forall i :: 0 <= i < |p[dotIndex..]| ==>
      p[dotIndex..][i] != '/' && (i > 0 ==> p[dotIndex..][i] != '.')
  {
  }

  /** What `splitext` promises about the final path component when it finds
      an extension: the root keeps a non-dot character of that component. */
  lemma SplitExtKeepsStem(p: string)
    requires Extension(p) != []
    ensures exists k :: RFind(p, '/') < k < |SplitExt(p).0| && SplitExt(p).0[k] != '.'
  {
    var sepIndex := RFind(p, '/');
    var dotIndex := RFind(p, '.');
    SplitExtCases(p);
    assert sepIndex < dotIndex && !AllDots(p[sepIndex + 1..dotIndex]);
    var stem := p[sepIndex + 1..dotIndex];
    AllDotsIff(stem);
    var j :| 0 <= j < |stem| && stem[j] != '.';
    assert SplitExt(p).0[sepIndex + 1 + j] == stem[j];
  }

  /** ... and when it finds none: no dot of the final component follows a
      non-dot character of it (a leading-dot name such as ".bashrc", or no dot). */
  lemma NoExtensionOnlyLeadingDots(p: string)
    requires Extension(p) == []
    ensures forall j, k :: RFind(p, '/') < j < k < |p| && p[k] == '.' ==> p[j] == '.'
  {
    var sepIndex := RFind(p, '/');
    var dotIndex := RFind(p, '.');
    if sepIndex < dotIndex {
      var stem := p[sepIndex + 1..dotIndex];
      SplitExtCases(p);
      assert p[dotIndex..] != [];
      AllDotsIff(stem);
      forall j, k | sepIndex < j < k < |p| && p[k] == '.'
        ensures p[j] == '.'
      {
        assert stem[j - sepIndex - 1] == p[j];
      }
    }
  }

  /** The two branches of `splitext`, as facts a proof can pick from. */
  lemma SplitExtCases(p: string)
    ensures var sepIndex, dotIndex := RFind(p, '/'), RFind(p, '.');
      && (sepIndex < dotIndex && !AllDots(p[sepIndex + 1..dotIndex]) ==>
            SplitExt(p) == (p[..dotIndex], p[dotIndex..]))
      && (!(sepIndex < dotIndex && !AllDots(p[sepIndex + 1..dotIndex])) ==> SplitExt(p) == (p, []))
  {
  }

  /** `splitext` finds an extension at the last dot when the final component
      has a non-dot character before it. */
  lemma ExtensionAt(p: string, sepIndex: int, dotIndex: int)
    requires sepIndex == RFind(p, '/') && dotIndex == RFind(p, '.')
    requires sepIndex < dotIndex && !AllDots(p[sepIndex + 1..dotIndex])
    ensures Extension(p) == p[dotIndex..]
  {
  }

  /** ... and none otherwise. */
  lemma NoExtensionAt(p: string, sepIndex: int, dotIndex: int)
    requires sepIndex == RFind(p, '/') && dotIndex == RFind(p, '.')
    requires !(sepIndex < dotIndex && !AllDots(p[sepIndex + 1..dotIndex]))
    ensures Extension(p) == []
  {
  }

  /** The extension part of `os.path.splitext(p)`. */
  function Extension(p: string): string {
    SplitExt(p).1
  }

  /** `c.lower()` for ASCII letters; every other character is left alone. */
  function LowerChar(c: char): (r: char)
    ensures 'A' <= c <= 'Z' ==> r as int == c as int + 32
    ensures !('A' <= c <= 'Z') ==> r == c
  {
    if 'A' <= c <= 'Z' then (c as int + 32) as char else c
  }

  /** `s.lower()`, character by character. */
  function Lower(s: string): (r: string)
    ensures |r| == |s|
    ensures forall i :: 0 <= i < |s| ==> r[i] == LowerChar(s[i])
  {
    seq(|s|, i requires 0 <= i < |s| => LowerChar(s[i]))
  }

  /** Lower-casing leaves '/' and '.' where they are, so `rfind` of either
      gives the same index before and after. */
  lemma {:induction false} RFindLower(s: string, c: char)
    requires !('A' <= c <= 'Z') && !('a' <= c <= 'z')
    ensures RFind(Lower(s), c) == RFind(s, c)
  {
    if |s| > 0 {
      assert Lower(s)[..|s| - 1] == Lower(s[..|s| - 1]);
      RFindLower(s[..|s| - 1], c);
    }
  }

  /** Lower-casing a slice is slicing the lower-cased string. */
  lemma LowerSlice(s: string, i: nat, j: nat)
    requires i <= j <= |s|
    ensures Lower(s)[i..j] == Lower(s[i..j])
  {
  }

  /** Lower-casing turns no character into a dot and no dot into anything else. */
  lemma AllDotsLower(s: string)
    ensures AllDots(Lower(s)) == AllDots(s)
  {
    AllDotsIff(s);
    AllDotsIff(Lower(s));
  }

  /** `splitext` commutes with `lower`: the extension of the lower-cased path
      is the lower-cased extension. */
  lemma ExtensionLower(p: string)
    ensures Extension(Lower(p)) == Lower(Extension(p))
  {
    RFindLower(p, '/');
    RFindLower(p, '.');
    var sepIndex := RFind(p, '/');
    var dotIndex := RFind(p, '.');
    if sepIndex < dotIndex {
      LowerSlice(p, sepIndex + 1, dotIndex);
      AllDotsLower(p[sepIndex + 1..dotIndex]);
    }
    if sepIndex < dotIndex && !AllDots(p[sepIndex + 1..dotIndex]) {
      LowerExtensionAt(p, sepIndex, dotIndex);
    } else {
      NoExtensionAt(p, sepIndex, dotIndex);
      NoExtensionAt(Lower(p), sepIndex, dotIndex);
    }
  }

  /** The case of `ExtensionLower` where an extension is found. */
  lemma LowerExtensionAt(p: string, sepIndex: int, dotIndex: int)
    requires sepIndex == RFind(p, '/') && dotIndex == RFind(p, '.')
    requires sepIndex == RFind(Lower(p), '/') && dotIndex == RFind(Lower(p), '.')
    requires sepIndex < dotIndex && !AllDots(p[sepIndex + 1..dotIndex])
    requires !AllDots(Lower(p)[sepIndex + 1..dotIndex])
    ensures Extension(Lower(p)) == Lower(Extension(p))
  {
    ExtensionAt(p, sepIndex, dotIndex);
    ExtensionAt(Lower(p), sepIndex, dotIndex);
    LowerSlice(p, dotIndex, |p|);
    assert p[dotIndex..] == p[dotIndex..|p|];
    assert Lower(p)[dotIndex..] == Lower(p)[dotIndex..|p|];
  }

  /** Lower-casing twice is lower-casing once. */
  lemma LowerIdempotent(s: string)
    ensures Lower(Lower(s)) == Lower(s)
  {
  }
}
