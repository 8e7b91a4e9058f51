/** POSIX path helpers in the shape of Node's `path` module: `dirname`,
    `basename`, `extname`, `join` and `relative`, for absolute, normalised
    paths. */
module Paths {
  import opened Text
  import opened Wrappers
  import Lists

  /** The index `dirname` cuts at: scanning right to left from `i`, the first
      `/` met after a non-`/` character, or -1. Index 0 is never examined. */
  function DirEnd(p: string, i: int, matchedSlash: bool): (e: int)
    requires i < |p|
    requires !matchedSlash ==> i + 2 <= |p|
    decreases i
    ensures e == -1 || (1 <= e <= i && e + 2 <= |p| && p[e] == '/')
  {
    if i < 1 then -1
    else if p[i] == '/' then (if !matchedSlash then i else DirEnd(p, i - 1, matchedSlash))
    else DirEnd(p, i - 1, false)
  }

  /** `path.posix.dirname(p)`. Each step either leaves the path unchanged (at
      `/` or `.`) or strictly shortens it, or lands on `.`. */
  function Dirname(p: string): (r: string)
    ensures r == p || r == "." || |r| < |p|
  {
    if |p| == 0 then "."
    else
      var e := DirEnd(p, |p| - 1, true);
      if e == -1 then (if p[0] == '/' then "/" else ".")
      else if p[0] == '/' && e == 1 then "//"
      else p[..e]
  }

  /** A measure that every directory-walk step strictly decreases. */
  function DirMeasure(p: string): nat {
    if p == "." then 0 else |p| + 1
  }

  lemma DirnameDecreases(p: string)
    requires Dirname(p) != p
    ensures DirMeasure(Dirname(p)) < DirMeasure(p)
  {
  }

  /** The non-empty `/`-separated segments of a path. */
  function Segments(p: string): seq<string> {
    Lists.Filter(Split(p, '/'), NonEmpty)
  }

  predicate NonEmpty(s: string) { s != "" }

  /** `path.basename(p)`: the last non-empty segment, or "" for `/`. */
  function Basename(p: string): string {
    var s := Segments(p);
    if |s| == 0 then "" else s[|s| - 1]
  }

  /** `path.basename(p, ext)`: the base name with one trailing `ext` removed,
      unless the base name is exactly `ext`. */
  function BasenameWithout(p: string, ext: string): (r: string)
    ensures EndsWith(Basename(p), ext) && Basename(p) != ext ==> r + ext == Basename(p)
    ensures !EndsWith(Basename(p), ext) ==> r == Basename(p)
  {
    var b := Basename(p);
    if EndsWith(b, ext) && b != ext then b[..|b| - |ext|] else b
  }

  /** Index of the last `c` in `s`. */
  function LastIndexOf(s: string, c: char): (r: Option<nat>)
    ensures r.Some? ==> r.value < |s| && s[r.value] == c &&
                        forall j :: r.value < j < |s| ==> s[j] != c
    ensures r.None? ==> forall j :: 0 <= j < |s| ==> s[j] != c
  {
    if |s| == 0 then None
    else if s[|s| - 1] == c then Some(|s| - 1)
    else LastIndexOf(s[..|s| - 1], c)
  }

  /** `path.extname` of a name without `/`: from the last `.` to the end,
      except that a leading dot (`.env`), no dot, or the name `..` give "". */
  function ExtOfName(name: string): (r: string)
    ensures r == "" || (r[0] == '.' && EndsWith(name, r) && |r| < |name|)
  {
    match LastIndexOf(name, '.')
    case None => ""
    case Some(d) => if d == 0 || name == ".." then "" else name[d..]
  }

  /** `path.extname(p)`. */
  function ExtName(p: string): string {
    ExtOfName(Basename(p))
  }

  /** `path.join(a, b)` without normalisation of `.`/`..` segments. */
  function Join(a: string, b: string): string {
    if a == "" then b
    else if EndsWith(a, "/") then a + b
    else a + "/" + b
  }

  function Repeat(s: string, n: nat): seq<string> {
    if n == 0 then [] else [s] + Repeat(s, n - 1)
  }

  function CommonPrefixLength(a: seq<string>, b: seq<string>): (n: nat)
    ensures n <= |a| && n <= |b| && a[..n] == b[..n]
    ensures n < |a| && n < |b| ==> a[n] != b[n]
  {
    if |a| == 0 || |b| == 0 || a[0] != b[0] then 0
    else
      var n := 1 + CommonPrefixLength(a[1..], b[1..]);
      assert a[..n] == [a[0]] + a[1..][..n - 1];
      assert b[..n] == [b[0]] + b[1..][..n - 1];
      n
  }

  /** `path.relative(from, to)` for absolute paths: one `..` per segment of
      `from` beyond the common prefix, then the rest of `to`. */
  function Relative(from: string, to: string): string {
    var f := Segments(from);
    var t := Segments(to);
    var c := CommonPrefixLength(f, t);
    Join2(Repeat("..", |f| - c) + t[c..])
  }

  /** Segments joined with `/`. */
  function Join2(segs: seq<string>): string {
    Text.Join(segs, "/")
  }

  lemma {:induction false} SplitConcat(a: string, b: string, sep: char)
    ensures Split(a + [sep] + b, sep) == Split(a, sep) + Split(b, sep)
  {
    var s := a + [sep] + b;
    if |a| == 0 {
      assert s == [sep] + b && s[1..] == b;
    } else {
      assert s[0] == a[0] && s[1..] == a[1..] + [sep] + b;
      SplitConcat(a[1..], b, sep);
      var sa := Split(a[1..], sep);
      var rest := Split(s[1..], sep);
      assert rest == sa + Split(b, sep);
      if a[0] != sep {
        assert rest[0] == sa[0];
        assert rest[1..] == sa[1..] + Split(b, sep);
      }
    }
  }

  /** A path whose segments are all non-empty: no leading, trailing or
      doubled `/`. */
  predicate Normal(r: string) {
    forall i :: 0 <= i < |Split(r, '/')| ==> Split(r, '/')[i] != ""
  }

  lemma {:induction false} FilterAllKept(xs: seq<string>)
    requires forall i :: 0 <= i < |xs| ==> xs[i] != ""
    ensures Lists.Filter(xs, NonEmpty) == xs
  {
    if |xs| > 0 {
      FilterAllKept(xs[1..]);
    }
  }

  lemma CommonPrefixOfExtension(f: seq<string>, r: seq<string>)
    ensures CommonPrefixLength(f, f + r) >= |f|
  {
    if |f| > 0 {
      assert (f + r)[1..] == f[1..] + r;
      CommonPrefixOfExtension(f[1..], r);
    }
  }

  /** A path strictly below `dir` is reached again by joining `dir` with its
      relative path: `join(dir, relative(dir, dir + "/" + r)) == dir + "/" + r`. */
  lemma RelativeJoinRoundTrip(dir: string, r: string)
    requires Normal(r) && dir != "" && !EndsWith(dir, "/")
    ensures Relative(dir, dir + "/" + r) == r
    ensures Join(dir, Relative(dir, dir + "/" + r)) == dir + "/" + r
  {
    var f := Segments(dir);
    var rs := Split(r, '/');
    SegmentsConcat(dir, r);
    CommonPrefixOfExtension(f, rs);
    var c := CommonPrefixLength(f, f + rs);
    assert c == |f|;
    assert (f + rs)[c..] == rs;
    assert Repeat("..", 0) == [];
    assert Repeat("..", |f| - c) + (f + rs)[c..] == rs;
    JoinSplit(r, '/');
  }

  lemma SegmentsConcat(dir: string, r: string)
    requires Normal(r)
    ensures Segments(dir + "/" + r) == Segments(dir) + Split(r, '/')
  {
    SplitConcat(dir, r, '/');
    assert dir + "/" + r == dir + ['/'] + r;
    Lists.FilterAppend(Split(dir, '/'), Split(r, '/'), NonEmpty);
    FilterAllKept(Split(r, '/'));
  }

  /** A path that does not lie under `from` has a relative path starting
      with `..`. */
  lemma RelativeOutside(from: string, to: string)
    requires CommonPrefixLength(Segments(from), Segments(to)) < |Segments(from)|
    ensures StartsWith(Relative(from, to), "..")
  {
    var f := Segments(from);
    var t := Segments(to);
    var c := CommonPrefixLength(f, t);
    var segs := Repeat("..", |f| - c) + t[c..];
    assert segs[0] == "..";
    if |segs| == 1 {
      assert Join2(segs) == "..";
    } else {
      assert Join2(segs) == ".." + "/" + Join2(segs[1..]);
    }
  }
}
