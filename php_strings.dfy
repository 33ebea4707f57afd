/**
 * The PHP string built-ins the core calls: `str_replace` with a
 * one-character search string, `rtrim` with a one-character mask, and
 * `basename` as it behaves on a POSIX host (only '/' separates components).
 */
module PhpStrings {

  /** `str_replace(from, to, s)` for single characters: every `from` becomes `to`. */
  function ReplaceChar(s: string, from: char, to: char): (r: string)
    ensures |r| == |s|
    ensures forall i :: 0 <= i < |s| ==> r[i] == (if s[i] == from then to else s[i])
  {
    if s == [] then []
    else [if s[0] == from then to else s[0]] + ReplaceChar(s[1..], from, to)
  }

  /** `rtrim(s, c)`: the longest prefix of `s` that does not end with `c`. */
  function RTrim(s: string, c: char): (r: string)
    ensures r <= s
    ensures r == [] || r[|r| - 1] != c
    ensures forall i :: |r| <= i < |s| ==> s[i] == c
  {
    if s != [] && s[|s| - 1] == c then RTrim(s[..|s| - 1], c) else s
  }

  /** The run of characters after the last '/' of `s`. */
  function LastComponent(s: string): (r: string)
    ensures '/' !in r
    ensures |r| <= |s| && r == s[|s| - |r|..]
    ensures |r| < |s| ==> s[|s| - |r| - 1] == '/'
  {
    if s == [] || s[|s| - 1] == '/' then []
    else
      var init := s[..|s| - 1];
      var r := LastComponent(init) + [s[|s| - 1]];
      assert s[|s| - |r|..] == init[|init| - |r| + 1..] + [s[|s| - 1]];
      r
  }

  /**
   * `basename(path)`: trailing slashes are dropped, then what follows the
   * last remaining '/' is the name. A path made only of slashes, or the
   * empty path, has the empty name.
   */
  function Basename(path: string): (r: string)
    ensures '/' !in r
    ensures |r| <= |path|
    ensures r == [] <==> forall i :: 0 <= i < |path| ==> path[i] == '/'
  {
    var t := RTrim(path, '/');
    if t == [] then []
    else
      assert t[..|t| - 1] + [t[|t| - 1]] == t;
      LastComponent(t)
  }

  lemma {:induction false} LastComponentAfterSlash(prefix: string, name: string)
    requires '/' !in name
    ensures LastComponent(prefix + "/" + name) == name
  {
    var s := prefix + "/" + name;
    if name != [] {
      var init := name[..|name| - 1];
      assert name[|name| - 1] in name;
      assert s[..|s| - 1] == prefix + "/" + init;
      LastComponentAfterSlash(prefix, init);
      assert init + [name[|name| - 1]] == name;
    }
  }

  lemma {:induction false} LastComponentOfName(name: string)
    requires '/' !in name
    ensures LastComponent(name) == name
  {
    if name != [] {
      var init := name[..|name| - 1];
      assert name[|name| - 1] in name;
      LastComponentOfName(init);
      assert init + [name[|name| - 1]] == name;
    }
  }

  /** A name without slashes is its own basename, also below any directory. */
  lemma BasenameOfName(dir: string, name: string)
    requires name != [] && '/' !in name
    ensures Basename(name) == name
    ensures Basename(dir + "/" + name) == name
  {
    var path := dir + "/" + name;
    assert name[|name| - 1] in name;
    assert path[|path| - 1] == name[|name| - 1];
    LastComponentOfName(name);
    LastComponentAfterSlash(dir, name);
  }

  /** Trailing slashes do not change the basename. */
  lemma BasenameIgnoresTrailingSlash(path: string)
    ensures Basename(path + "/") == Basename(path)
  {
    var p := path + "/";
    assert p[..|p| - 1] == path;
  }

  /** Taking the basename twice changes nothing. */
  lemma BasenameIdempotent(path: string)
    ensures Basename(Basename(path)) == Basename(path)
  {
    var r := Basename(path);
    if r != [] {
      BasenameOfName([], r);
    }
  }
}
