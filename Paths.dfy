/** The parts of System.IO.Path the controllers use, on a Unix host where '/'
    is the only directory separator, and the ASCII part of String.ToLower. */
module Paths {

  const Separator: char := '/'

  /** A directory entry's own name: non-empty, with no directory part. */
  predicate IsPlainName(s: string) {
    |s| > 0 && NoSeparator(s)
  }

  predicate NoSeparator(s: string) {
    forall i :: 0 <= i < |s| ==> s[i] != Separator
  }

  /** Path.GetFileName: the characters after the last separator. */
  function BaseName(path: string): string
    decreases |path|
  {
    if |path| == 0 || path[|path| - 1] == Separator then ""
    else BaseName(path[..|path| - 1]) + [path[|path| - 1]]
  }

  /** The base name is the longest separator-free suffix of the path. */
  lemma {:induction false} BaseNameIsLastSegment(path: string)
    ensures var r := BaseName(path);
      && |r| <= |path| && r == path[|path| - |r|..]
      && NoSeparator(r)
      && (|r| < |path| ==> path[|path| - |r| - 1] == Separator)
    decreases |path|
  {
    var n := |path|;
    if n > 0 && path[n - 1] != Separator {
      var b := BaseName(path[..n - 1]);
      BaseNameIsLastSegment(path[..n - 1]);
      assert path[n - |b| - 1..] == path[..n - 1][n - 1 - |b|..] + [path[n - 1]];
    }
  }

  /** The suffix of `path` that starts at the last '.' of its last segment,
      or "" when that segment holds no '.'. */
  function DotSuffix(path: string): (r: string)
    ensures |r| <= |path| && r == path[|path| - |r|..]
    ensures r == [] || (r[0] == '.' && '.' !in r[1..] && NoSeparator(r))
    ensures r == "." <==> |path| > 0 && path[|path| - 1] == '.'
    decreases |path|
  {
    if |path| == 0 || path[|path| - 1] == Separator then ""
    else if path[|path| - 1] == '.' then "."
    else
      var init := path[..|path| - 1];
      var d := DotSuffix(init);
      if d == [] then ""
      else
        assert path[|path| - |d| - 1..] == init[|init| - |d|..] + [path[|path| - 1]];
        assert (d + [path[|path| - 1]])[1..] == d[1..] + [path[|path| - 1]];
        d + [path[|path| - 1]]
  }

  /** The dot suffix is empty exactly when the last segment has no '.'. */
  lemma {:induction false} DotSuffixEmptyIff(path: string)
    ensures DotSuffix(path) == [] <==> '.' !in BaseName(path)
    decreases |path|
  {
    var n := |path|;
    if n > 0 && path[n - 1] != Separator {
      var init := path[..n - 1];
      assert BaseName(path) == BaseName(init) + [path[n - 1]];
      if path[n - 1] != '.' {
        DotSuffixEmptyIff(init);
      }
    }
  }

  /** Path.GetExtension: the suffix of the last segment that starts at its
      last '.', or "" when the last segment has no '.' or ends with one. */
  function Extension(path: string): (r: string)
    ensures r == [] <==> '.' !in BaseName(path) || (|path| > 0 && path[|path| - 1] == '.')
    ensures r != [] ==>
      && 2 <= |r| <= |path| && r == path[|path| - |r|..]
      && r[0] == '.' && '.' !in r[1..] && NoSeparator(r)
  {
    DotSuffixEmptyIff(path);
    var d := DotSuffix(path);
    if d == "." then "" else d
  }

  /** Path.Combine of two non-null strings. */
  function Combine(dir: string, name: string): (r: string)
    ensures IsPlainName(name) ==> |r| >= |name| && r[|r| - |name|..] == name
  {
    if |name| == 0 then dir
    else if name[0] == Separator then name
    else if |dir| == 0 then name
    else if dir[|dir| - 1] == Separator then dir + name
    else dir + [Separator] + name
  }

  function LowerChar(c: char): char {
    if 'A' <= c <= 'Z' then (c as int - 'A' as int + 'a' as int) as char else c
  }

  /** String.ToLower, restricted to ASCII letters: upper-case letters move
      to their lower-case partners, every other character stays. */
  function ToLower(s: string): (r: string)
    ensures |r| == |s|
    ensures forall i :: 0 <= i < |r| ==> !('A' <= r[i] <= 'Z')
    ensures forall i :: 0 <= i < |s| && !('A' <= s[i] <= 'Z') ==> r[i] == s[i]
    ensures forall i :: 0 <= i < |s| && 'A' <= s[i] <= 'Z' ==> r[i] as int == s[i] as int + 32
  {
    seq(|s|, i requires 0 <= i < |s| => LowerChar(s[i]))
  }

  /** Lower-casing twice is lower-casing once. */
  lemma ToLowerIdempotent(s: string)
    ensures ToLower(ToLower(s)) == ToLower(s)
  {
  }

  /** The upload filter's type test, `Path.GetExtension(name).ToLower() == ".mp4"`,
      written character by character (Mp4ExtensionIsGetExtension shows the two agree). */
  predicate HasMp4Extension(name: string) {
    var n := |name|;
    n >= 4 && name[n - 4] == '.' && LowerChar(name[n - 3]) == 'm' && LowerChar(name[n - 2]) == 'p' && name[n - 1] == '4'
  }

  /** A dot followed by a dot-free, separator-free tail is the dot suffix. */
  lemma {:induction false} DotSuffixOfTail(p: string, t: string)
    requires |p| > 0 && p[|p| - 1] == '.'
    requires '.' !in t && NoSeparator(t)
    ensures DotSuffix(p + t) == "." + t
    decreases |t|
  {
    if |t| > 0 {
      var t' := t[..|t| - 1];
      assert (p + t)[..|p + t| - 1] == p + t';
      DotSuffixOfTail(p, t');
      assert "." + t == ("." + t') + [t[|t| - 1]];
    } else {
      assert p + t == p;
    }
  }

  /** The type test agrees with the library expression it stands for: the
      last four characters, compared without case, because ".mp4" has no dot
      or separator after its first character. */
  lemma Mp4ExtensionIsGetExtension(name: string)
    ensures HasMp4Extension(name) <==> ToLower(Extension(name)) == ".mp4"
  {
    if HasMp4Extension(name) {
      Mp4ExtensionGivesGetExtension(name);
    }
    if ToLower(Extension(name)) == ".mp4" {
      GetExtensionGivesMp4Extension(name);
    }
  }

  lemma Mp4ExtensionGivesGetExtension(name: string)
    requires HasMp4Extension(name)
    ensures ToLower(Extension(name)) == ".mp4"
  {
    var n := |name|;
    var t := name[n - 3..];
    assert name == name[..n - 3] + t;
    assert t == [name[n - 3], name[n - 2], name[n - 1]];
    DotSuffixOfTail(name[..n - 3], t);
    var e := Extension(name);
    assert e == name[n - 4..];
    var low := ToLower(e);
    assert low[0] == '.' && low[1] == 'm' && low[2] == 'p' && low[3] == '4';
  }

  lemma GetExtensionGivesMp4Extension(name: string)
    requires ToLower(Extension(name)) == ".mp4"
    ensures HasMp4Extension(name)
  {
    var n := |name|;
    var e := Extension(name);
    assert |e| == 4;
    assert e == name[n - 4..];
    assert ToLower(e)[1] == 'm' && ToLower(e)[2] == 'p';
  }

  /** Upper- or mixed-case extensions pass the type test; others do not. */
  lemma Mp4ExtensionExamples()
    ensures HasMp4Extension("CLIP.MP4") && HasMp4Extension("videos/clip.Mp4")
    ensures !HasMp4Extension("document.pdf") && !HasMp4Extension("clip.mp4.txt")
  {
  }

  /** Any name that passes the type test has a non-empty base name: the
      upload never writes to the folder path itself. */
  lemma Mp4BaseNameIsPlain(name: string)
    requires HasMp4Extension(name)
    ensures IsPlainName(BaseName(name))
  {
    BaseNameIsLastSegment(name);
  }

  /** After a separator (or at the start), a separator-free name is the base name. */
  lemma {:induction false} BaseNameAfterSeparator(p: string, name: string)
    requires p == [] || p[|p| - 1] == Separator
    requires NoSeparator(name)
    ensures BaseName(p + name) == name
    decreases |name|
  {
    if |name| == 0 {
      assert p + name == p;
    } else {
      var init := name[..|name| - 1];
      assert (p + name)[..|p + name| - 1] == p + init;
      BaseNameAfterSeparator(p, init);
      assert name == init + [name[|name| - 1]];
    }
  }

  /** A name without separators is its own base name. */
  lemma PlainNameIsItsBaseName(name: string)
    requires NoSeparator(name)
    ensures BaseName(name) == name
  {
    BaseNameAfterSeparator([], name);
    assert [] + name == name;
  }

  /** Joining a folder path with an entry name and taking the file name back
      gives the entry name. */
  lemma BaseNameOfCombine(dir: string, name: string)
    requires IsPlainName(name)
    ensures BaseName(Combine(dir, name)) == name
  {
    if |dir| == 0 {
      PlainNameIsItsBaseName(name);
    } else if dir[|dir| - 1] == Separator {
      BaseNameAfterSeparator(dir, name);
    } else {
      BaseNameAfterSeparator(dir + [Separator], name);
    }
  }

  /** Different entry names give different paths under the same folder. */
  lemma CombineInjective(dir: string, n1: string, n2: string)
    requires IsPlainName(n1) && IsPlainName(n2)
    requires Combine(dir, n1) == Combine(dir, n2)
    ensures n1 == n2
  {
    BaseNameOfCombine(dir, n1);
    BaseNameOfCombine(dir, n2);
  }
}
