/**
 * `Fs::join`: every argument has each '\' and '/' turned into the
 * platform's directory separator and its trailing separators removed, and
 * the results are glued together with one separator between neighbours.
 */
module Fs {
  import opened PhpStrings

  predicate IsSlash(c: char) {
    c == '/' || c == '\\'
  }

  /** DIRECTORY_SEPARATOR: '/' on POSIX hosts, '\' on Windows. */
  type Separator = c: char | IsSlash(c) witness '/'

  /**
   * One argument after `str_replace(["\\", "/"], sep, path)` and
   * `rtrim(..., sep)`: the slashes of `path` mapped to `sep`, cut after its
   * last character that is not a slash.
   */
  function Normalize(path: string, sep: Separator): (r: string)
    ensures |r| <= |path|
    ensures forall i :: 0 <= i < |r| ==> r[i] == (if IsSlash(path[i]) then sep else path[i])
    ensures forall i :: |r| <= i < |path| ==> IsSlash(path[i])
    ensures r == [] || !IsSlash(r[|r| - 1])
  {
    RTrim(ReplaceChar(ReplaceChar(path, '\\', sep), '/', sep), sep)
  }

  /** `array_map` of Normalize over the arguments. */
  function NormalizeAll(paths: seq<string>, sep: Separator): (r: seq<string>)
    ensures |r| == |paths|
    ensures forall i :: 0 <= i < |paths| ==> r[i] == Normalize(paths[i], sep)
  {
    seq(|paths|, i requires 0 <= i < |paths| => Normalize(paths[i], sep))
  }

  /** `join(glue, pieces)`: the pieces with one `glue` between each neighbouring pair. */
  function Implode(glue: char, pieces: seq<string>): (r: string)
  {
    if pieces == [] then []
    else if |pieces| == 1 then pieces[0]
    else pieces[0] + [glue] + Implode(glue, pieces[1..])
  }

  /** `Fs::join(...paths)` with DIRECTORY_SEPARATOR given as `sep`. */
  function Join(sep: Separator, paths: seq<string>): (r: string)
    ensures paths == [] ==> r == []
    ensures |paths| == 1 ==> r == Normalize(paths[0], sep)
  {
    Implode(sep, NormalizeAll(paths, sep))
  }

  /** After normalisation the only slash character left is the separator. */
  lemma NormalizeUsesOnlySeparator(path: string, sep: Separator)
    ensures forall i :: 0 <= i < |Normalize(path, sep)| && IsSlash(Normalize(path, sep)[i]) ==> Normalize(path, sep)[i] == sep
  {
  }

  /**
   * Only the end is trimmed: every character up to the last one that is not
   * a slash survives, so leading separators stay.
   */
  lemma NormalizeKeepsLeadingSeparators(path: string, sep: Separator, n: nat)
    requires n < |path| && !IsSlash(path[n])
    requires forall i :: 0 <= i < n ==> IsSlash(path[i])
    ensures |Normalize(path, sep)| > n
    ensures forall i :: 0 <= i < n ==> Normalize(path, sep)[i] == sep
  {
  }

  /** A part is normalised away exactly when it consists of slashes only. */
  lemma NormalizeEmptyIffSlashes(path: string, sep: Separator)
    ensures Normalize(path, sep) == [] <==> forall i :: 0 <= i < |path| ==> IsSlash(path[i])
  {
    var r := Normalize(path, sep);
    if r != [] {
      assert !IsSlash(path[|r| - 1]);
    }
  }

  /** A part without slashes is left as it is. */
  lemma NormalizePlain(path: string, sep: Separator)
    requires forall i :: 0 <= i < |path| ==> !IsSlash(path[i])
    ensures Normalize(path, sep) == path
  {
    var mapped := ReplaceChar(ReplaceChar(path, '\\', sep), '/', sep);
    assert mapped == path;
  }

  /** Normalising a normalised part changes nothing. */
  lemma NormalizeIdempotent(path: string, sep: Separator)
    ensures Normalize(Normalize(path, sep), sep) == Normalize(path, sep)
  {
    var r := Normalize(path, sep);
    var rr := Normalize(r, sep);
    if r != [] {
      assert !IsSlash(r[|r| - 1]);
    }
    assert |rr| == |r|;
  }

  /** How often `c` occurs in `s`. */
  function CountChar(s: string, c: char): nat
  {
    if s == [] then 0 else (if s[0] == c then 1 else 0) + CountChar(s[1..], c)
  }

  function SumCounts(pieces: seq<string>, c: char): nat
  {
    if pieces == [] then 0 else CountChar(pieces[0], c) + SumCounts(pieces[1..], c)
  }

  function SumLengths(pieces: seq<string>): nat
  {
    if pieces == [] then 0 else |pieces[0]| + SumLengths(pieces[1..])
  }

  lemma {:induction false} CountCharConcat(a: string, b: string, c: char)
    ensures CountChar(a + b, c) == CountChar(a, c) + CountChar(b, c)
  {
    if a != [] {
      assert (a + b)[1..] == a[1..] + b;
      CountCharConcat(a[1..], b, c);
    } else {
      assert a + b == b;
    }
  }

  /** Gluing n pieces inserts n - 1 glue characters and nothing else. */
  lemma {:induction false} ImplodeInsertsGlue(glue: char, pieces: seq<string>)
    requires pieces != []
    ensures |Implode(glue, pieces)| == SumLengths(pieces) + |pieces| - 1
    ensures CountChar(Implode(glue, pieces), glue) == SumCounts(pieces, glue) + |pieces| - 1
  {
    if |pieces| > 1 {
      ImplodeInsertsGlue(glue, pieces[1..]);
      var rest := Implode(glue, pieces[1..]);
      CountCharConcat(pieces[0] + [glue], rest, glue);
      CountCharConcat(pieces[0], [glue], glue);
    }
  }

  lemma {:induction false} ImplodeAppend(glue: char, a: seq<string>, b: seq<string>)
    requires a != [] && b != []
    ensures Implode(glue, a + b) == Implode(glue, a) + [glue] + Implode(glue, b)
  {
    if |a| > 1 {
      assert (a + b)[1..] == a[1..] + b;
      ImplodeAppend(glue, a[1..], b);
    }
  }

  /**
   * `explode(sep, s)`: the pieces of `s` between separators. Used here as
   * the inverse that Join is checked against.
   */
  function Explode(s: string, sep: char): (r: seq<string>)
    ensures |r| == CountChar(s, sep) + 1
    ensures forall i :: 0 <= i < |r| ==> sep !in r[i]
  {
    if s == [] then [[]]
    else
      var rest := Explode(s[1..], sep);
      if s[0] == sep then [[]] + rest else [[s[0]] + rest[0]] + rest[1..]
  }

  lemma {:induction false} ExplodeAfterPiece(a: string, sep: char, b: string)
    requires sep !in a
    ensures Explode(a + [sep] + b, sep) == [a] + Explode(b, sep)
  {
    var s := a + [sep] + b;
    if a == [] {
      assert s[1..] == b;
    } else {
      assert s[1..] == a[1..] + [sep] + b;
      assert a[0] in a;
      ExplodeAfterPiece(a[1..], sep, b);
      assert [a[0]] + a[1..] == a;
    }
  }

  lemma {:induction false} ExplodeSinglePiece(a: string, sep: char)
    requires sep !in a
    ensures Explode(a, sep) == [a]
  {
    if a != [] {
      assert a[0] in a;
      ExplodeSinglePiece(a[1..], sep);
      assert [a[0]] + a[1..] == a;
    }
  }

  /** Splitting glued pieces at the glue gives the pieces back, when no piece holds the glue. */
  lemma {:induction false} ExplodeImplode(glue: char, pieces: seq<string>)
    requires pieces != []
    requires forall i :: 0 <= i < |pieces| ==> glue !in pieces[i]
    ensures Explode(Implode(glue, pieces), glue) == pieces
  {
    if |pieces| == 1 {
      ExplodeSinglePiece(pieces[0], glue);
    } else {
      ExplodeImplode(glue, pieces[1..]);
      ExplodeAfterPiece(pieces[0], glue, Implode(glue, pieces[1..]));
    }
  }

  /** n arguments are joined with exactly n - 1 separators added to their own. */
  lemma JoinSeparatorCount(sep: Separator, paths: seq<string>)
    requires paths != []
    ensures CountChar(Join(sep, paths), sep) == SumCounts(NormalizeAll(paths, sep), sep) + |paths| - 1
    ensures |Join(sep, paths)| == SumLengths(NormalizeAll(paths, sep)) + |paths| - 1
  {
    ImplodeInsertsGlue(sep, NormalizeAll(paths, sep));
  }

  /** Joining two runs of arguments is joining each run, then the two results. */
  lemma JoinAppend(sep: Separator, a: seq<string>, b: seq<string>)
    requires a != [] && b != []
    ensures Join(sep, a + b) == Join(sep, a) + [sep] + Join(sep, b)
  {
    assert NormalizeAll(a + b, sep) == NormalizeAll(a, sep) + NormalizeAll(b, sep);
    ImplodeAppend(sep, NormalizeAll(a, sep), NormalizeAll(b, sep));
  }

  /** Arguments without slashes come back out of the joined path when it is split at the separator. */
  lemma JoinSplitRoundTrip(sep: Separator, paths: seq<string>)
    requires paths != []
    requires forall i, j :: 0 <= i < |paths| && 0 <= j < |paths[i]| ==> !IsSlash(paths[i][j])
    ensures Explode(Join(sep, paths), sep) == paths
  {
    forall i | 0 <= i < |paths|
      ensures Normalize(paths[i], sep) == paths[i]
    {
      NormalizePlain(paths[i], sep);
    }
    assert NormalizeAll(paths, sep) == paths;
    ExplodeImplode(sep, paths);
  }
}
