/**
 * The POSIX flavour of Node's `path` module, as far as the core uses it:
 * `basename`, `extname`, `dirname` and `join(d, '..')`.
 */
module NodePath {

  /** `p` with every trailing `/` removed. */
  function TrimTrailingSlashes(p: string): (r: string)
    ensures |r| <= |p| && r == p[..|r|]
    ensures r == "" || r[|r| - 1] != '/'
  {
    if p != [] && p[|p| - 1] == '/' then TrimTrailingSlashes(p[..|p| - 1]) else p
  }

  /** The text after the last `/` of `p` (all of `p` when it has none). */
  function AfterLastSlash(p: string): string {
    if p == [] then p
    else if p[|p| - 1] == '/' then ""
    else AfterLastSlash(p[..|p| - 1]) + [p[|p| - 1]]
  }

  /** `path.basename(p)`: the last path part, trailing separators ignored. */
  function Basename(p: string): string {
    AfterLastSlash(TrimTrailingSlashes(p))
  }

  /** The index of the last occurrence of `c` in `s`, or -1. */
  function LastIndexOf(s: string, c: char): (r: int)
    ensures -1 <= r < |s|
    ensures r >= 0 ==> s[r] == c
    ensures forall k :: r < k < |s| ==> s[k] != c
  {
    if s == [] then -1
    else if s[|s| - 1] == c then |s| - 1
    else LastIndexOf(s[..|s| - 1], c)
  }

  /**
   * The extension of one path part: from its last `.` to its end, or `""`
   * when it has no `.`, when its only `.` is the first character (a dotfile),
   * or when the part is `..`.
   */
  function PartExtension(b: string): string {
    var d := LastIndexOf(b, '.');
    if d <= 0 || b == ".." then "" else b[d..]
  }

  /** `path.extname(p)` (the leading `.` included). */
  function Extname(p: string): string {
    PartExtension(Basename(p))
  }

  /**
   * The scan of `path.dirname` from index `i` down to 1: the index of the
   * first `/` met after a non-`/` character, or -1.
   */
  function DirEnd(p: string, i: int, matchedSlash: bool): (r: int)
    requires i < |p|
    ensures r == -1 || 1 <= r <= i
    decreases i
  {
    if i < 1 then -1
    else if p[i] == '/' then (if !matchedSlash then i else DirEnd(p, i - 1, matchedSlash))
    else DirEnd(p, i - 1, false)
  }

  /** `path.dirname(p)` */
  function Dirname(p: string): (r: string)
    ensures r != ""
  {
    if p == [] then "."
    else
      var hasRoot := p[0] == '/';
      var end := DirEnd(p, |p| - 1, true);
      if end == -1 then (if hasRoot then "/" else ".")
      else if hasRoot && end == 1 then "//"
      else p[..end]
  }

  /** The index of the first occurrence of `c` in `s`, or -1. */
  function IndexOf(s: string, c: char): (r: int)
    ensures -1 <= r < |s|
    ensures r >= 0 ==> s[r] == c
    ensures forall k :: 0 <= k < |s| && (r == -1 || k < r) ==> s[k] != c
  {
    if s == [] then -1
    else if s[0] == c then 0
    else var r := IndexOf(s[1..], c); if r == -1 then -1 else r + 1
  }

  /** `p.split('/')` */
  function Split(p: string): (r: seq<string>)
    ensures |r| >= 1
    decreases |p|
  {
    var i := IndexOf(p, '/');
    if i == -1 then [p] else [p[..i]] + Split(p[i + 1..])
  }

  /** `segs.join('/')` */
  function JoinSegments(segs: seq<string>): string {
    if segs == [] then ""
    else if |segs| == 1 then segs[0]
    else segs[0] + "/" + JoinSegments(segs[1..])
  }

  /** One step of `normalizeString`: how a segment changes the resolved prefix. */
  function ResolveStep(res: seq<string>, s: string, allowAboveRoot: bool): seq<string> {
    if s == "" || s == "." then res
    else if s == ".." then
      if res != [] && res[|res| - 1] != ".." then res[..|res| - 1]
      else if allowAboveRoot then res + [".."]
      else res
    else res + [s]
  }

  /** `normalizeString`: resolve the segments from left to right onto `res`. */
  function Resolve(segs: seq<string>, res: seq<string>, allowAboveRoot: bool): seq<string>
    decreases |segs|
  {
    if segs == [] then res
    else Resolve(segs[1..], ResolveStep(res, segs[0], allowAboveRoot), allowAboveRoot)
  }

  /** `path.normalize(p)` */
  function Normalize(p: string): string {
    if p == [] then "."
    else
      var isAbsolute := p[0] == '/';
      var trailing := p[|p| - 1] == '/';
      var r := JoinSegments(Resolve(Split(p), [], !isAbsolute));
      if r == [] then (if isAbsolute then "/" else if trailing then "./" else ".")
      else (if isAbsolute then "/" else "") + r + (if trailing then "/" else "")
  }

  /** `path.join(d, '..')`: an empty `d` is skipped by `join`. */
  function JoinParent(d: string): string {
    if d == [] then Normalize("..") else Normalize(d + "/..")
  }

  // ---------------------------------------------------------------------
  // Plain relative paths: the entry names an archive normally holds.

  /** A segment that `normalize` keeps as it is. */
  ghost predicate PlainSegment(s: string) {
    s != "" && s != "." && s != ".." && '/' !in s
  }

  /** `segs.join('/')` names a relative path made of plain segments only. */
  ghost predicate PlainPath(segs: seq<string>) {
    |segs| >= 1 && forall i :: 0 <= i < |segs| ==> PlainSegment(segs[i])
  }

  lemma {:induction false} JoinSnoc(segs: seq<string>)
    requires |segs| >= 2
    ensures JoinSegments(segs) == JoinSegments(segs[..|segs| - 1]) + "/" + segs[|segs| - 1]
  {
    if |segs| > 2 {
      JoinSnoc(segs[1..]);
      assert segs[1..][..|segs| - 2] == segs[..|segs| - 1][1..];
    }
  }

  lemma {:induction false} JoinEnds(segs: seq<string>)
    requires |segs| >= 1 && forall i :: 0 <= i < |segs| ==> segs[i] != ""
    ensures |JoinSegments(segs)| >= |segs[0]|
    ensures JoinSegments(segs)[0] == segs[0][0]
    ensures JoinSegments(segs)[|JoinSegments(segs)| - 1] == segs[|segs| - 1][|segs[|segs| - 1]| - 1]
    ensures |segs| >= 2 ==> |JoinSegments(segs)| >= |segs[0]| + 2
  {
    if |segs| >= 2 {
      JoinEnds(segs[1..]);
    }
  }

  lemma {:induction false} IndexOfAbsent(a: string, c: char)
    requires c !in a
    ensures IndexOf(a, c) == -1
  {
  }

  lemma {:induction false} IndexOfAfter(a: string, b: string)
    requires '/' !in a
    ensures IndexOf(a + "/" + b, '/') == |a|
  {
    var p := a + "/" + b;
    assert p[|a|] == '/';
    forall k | 0 <= k < |a| ensures p[k] != '/' {
      assert p[k] == a[k];
    }
  }

  /** Splitting at the first separator. */
  lemma SplitAt(a: string, b: string)
    requires '/' !in a
    ensures Split(a + "/" + b) == [a] + Split(b)
  {
    var p := a + "/" + b;
    IndexOfAfter(a, b);
    assert p[..|a|] == a;
    assert p[|a| + 1..] == b;
  }

  /** Splitting a join of segments without separators gives them back. */
  lemma {:induction false} SplitJoin(segs: seq<string>)
    requires |segs| >= 1
    requires forall i :: 0 <= i < |segs| ==> '/' !in segs[i]
    ensures Split(JoinSegments(segs)) == segs
  {
    if |segs| == 1 {
      IndexOfAbsent(segs[0], '/');
    } else {
      var tail := segs[1..];
      var rest := JoinSegments(tail);
      assert JoinSegments(segs) == segs[0] + "/" + rest;
      SplitAt(segs[0], rest);
      assert forall i :: 0 <= i < |tail| ==> '/' !in tail[i] by {
        forall i | 0 <= i < |tail| ensures '/' !in tail[i] {
          assert tail[i] == segs[i + 1];
        }
      }
      SplitJoin(tail);
      assert [segs[0]] + tail == segs;
    }
  }

  lemma {:induction false} ResolvePlain(segs: seq<string>, res: seq<string>, allowAboveRoot: bool)
    requires forall i :: 0 <= i < |segs| ==> PlainSegment(segs[i])
    ensures Resolve(segs, res, allowAboveRoot) == res + segs
  {
    if segs != [] {
      ResolvePlain(segs[1..], res + [segs[0]], allowAboveRoot);
      assert res + [segs[0]] + segs[1..] == res + segs;
    }
  }

  lemma {:induction false} ResolveAppend(u: seq<string>, v: seq<string>, res: seq<string>, allowAboveRoot: bool)
    ensures Resolve(u + v, res, allowAboveRoot) == Resolve(v, Resolve(u, res, allowAboveRoot), allowAboveRoot)
  {
    if u != [] {
      assert (u + v)[1..] == u[1..] + v;
      ResolveAppend(u[1..], v, ResolveStep(res, u[0], allowAboveRoot), allowAboveRoot);
    } else {
      assert u + v == v;
    }
  }

  /** The scan of `dirname` stops at the separator before the last part. */
  lemma {:induction false} DirEndScan(p: string, a: int, i: int, matchedSlash: bool)
    requires 1 <= a < i < |p| && p[a] == '/'
    requires forall k :: a < k <= i ==> p[k] != '/'
    ensures DirEnd(p, i, matchedSlash) == a
    decreases i
  {
    if i - 1 > a {
      DirEndScan(p, a, i - 1, false);
    }
  }

  lemma {:induction false} DirEndNone(p: string, i: int, matchedSlash: bool)
    requires i < |p|
    requires forall k :: 1 <= k <= i ==> p[k] != '/'
    ensures DirEnd(p, i, matchedSlash) == -1
    decreases i
  {
    if i >= 1 {
      DirEndNone(p, i - 1, false);
    }
  }

  lemma {:induction false} DirnameNoSlash(p: string)
    requires p != "" && '/' !in p
    ensures Dirname(p) == "."
  {
    DirEndNone(p, |p| - 1, true);
  }

  lemma {:induction false} DirnameBeforeLast(a: string, b: string)
    requires a != "" && a[0] != '/' && b != "" && '/' !in b
    ensures Dirname(a + "/" + b) == a
  {
    var p := a + "/" + b;
    forall k | |a| < k <= |p| - 1 ensures p[k] != '/' {
      assert p[k] == b[k - |a| - 1];
    }
    DirEndScan(p, |a|, |p| - 1, true);
    assert p[..|a|] == a;
  }

  /** `dirname` drops the last segment of a plain path, or gives `.` for a single one. */
  lemma {:induction false} DirnameOfPlain(segs: seq<string>)
    requires PlainPath(segs)
    ensures Dirname(JoinSegments(segs)) == if |segs| == 1 then "." else JoinSegments(segs[..|segs| - 1])
  {
    var n := |segs|;
    if n == 1 {
      assert PlainSegment(segs[0]);
      DirnameNoSlash(segs[0]);
    } else {
      var t := segs[..n - 1];
      JoinSnoc(segs);
      assert PlainSegment(segs[0]) && PlainSegment(segs[n - 1]);
      assert t[0] == segs[0];
      JoinEnds(t);
      DirnameBeforeLast(JoinSegments(t), segs[n - 1]);
    }
  }

  /** `..` is what `path.join('.', '..')` gives. */
  lemma {:induction false} JoinParentOfDot()
    ensures JoinParent(".") == ".."
  {
    var p := "./..";
    assert p == "." + "/" + "..";
    IndexOfAfter(".", "..");
    assert p[..1] == "." && p[2..] == "..";
    IndexOfAbsent("..", '/');
    assert Split("..") == [".."];
    assert Split(p) == ["."] + Split("..");
    var segs := [".", ".."];
    assert segs[1..] == [".."];
    assert ResolveStep([], ".", true) == [];
    assert ResolveStep([], "..", true) == [".."];
    assert Resolve(segs, [], true) == Resolve([".."], [], true);
    assert Resolve([".."], [], true) == Resolve([], [".."], true);
    assert JoinSegments([".."]) == "..";
    assert p[0] != '/' && p[|p| - 1] != '/';
    assert JoinParent(".") == Normalize(p);
  }

  /** `normalize` of a relative path without a trailing separator joins what `normalizeString` kept. */
  lemma {:induction false} NormalizeRelative(p: string, kept: seq<string>)
    requires p != "" && p[0] != '/' && p[|p| - 1] != '/'
    requires Resolve(Split(p), [], true) == kept
    requires forall i :: 0 <= i < |kept| ==> kept[i] != ""
    ensures Normalize(p) == if kept == [] then "." else JoinSegments(kept)
  {
    if kept != [] {
      JoinEnds(kept);
    }
  }

  /** The segments of `d/..` for a plain path `d`. */
  lemma {:induction false} SplitParentOfPlain(t: seq<string>)
    requires PlainPath(t)
    ensures Split(JoinSegments(t) + "/..") == t + [".."]
  {
    var d := JoinSegments(t);
    assert JoinSegments(t + [".."]) == d + "/.." by {
      if |t| >= 2 {
        JoinSnoc(t + [".."]);
        assert (t + [".."])[..|t|] == t;
      } else {
        assert (t + [".."])[1..] == [".."];
      }
    }
    assert forall i :: 0 <= i < |t + [".."]| ==> '/' !in (t + [".."])[i] by {
      forall i | 0 <= i < |t + [".."]| ensures '/' !in (t + [".."])[i] {
        if i < |t| { assert PlainSegment(t[i]); }
      }
    }
    SplitJoin(t + [".."]);
  }

  /** Resolving `t` then `..` drops the last segment of a plain path. */
  lemma ResolveParentOfPlain(t: seq<string>)
    requires PlainPath(t)
    ensures Resolve(t + [".."], [], true) == t[..|t| - 1]
  {
    ResolveAppend(t, [".."], [], true);
    ResolvePlain(t, [], true);
    assert [] + t == t;
    assert PlainSegment(t[|t| - 1]);
  }

  /** `path.join(d, '..')` drops the last segment of a plain path `d`. */
  lemma {:induction false} JoinParentOfPlain(t: seq<string>)
    requires PlainPath(t)
    ensures JoinParent(JoinSegments(t)) == if |t| == 1 then "." else JoinSegments(t[..|t| - 1])
  {
    var d := JoinSegments(t);
    assert PlainSegment(t[0]);
    JoinEnds(t);
    SplitParentOfPlain(t);
    var kept := t[..|t| - 1];
    ResolveParentOfPlain(t);
    var p := d + "/..";
    assert p[0] == t[0][0];
    assert forall i :: 0 <= i < |kept| ==> kept[i] != "" by {
      forall i | 0 <= i < |kept| ensures kept[i] != "" {
        assert PlainSegment(t[i]);
      }
    }
    NormalizeRelative(p, kept);
  }

  /** `path.join(path.dirname(name), '..')` drops the last two segments of a plain path. */
  lemma {:induction false} JoinParentOfDirname(segs: seq<string>)
    requires PlainPath(segs)
    ensures JoinParent(Dirname(JoinSegments(segs))) ==
      if |segs| == 1 then ".." else if |segs| == 2 then "." else JoinSegments(segs[..|segs| - 2])
  {
    DirnameOfPlain(segs);
    if |segs| == 1 {
      JoinParentOfDot();
    } else {
      var t := segs[..|segs| - 1];
      assert PlainPath(t);
      JoinParentOfPlain(t);
      assert t[..|t| - 1] == segs[..|segs| - 2];
    }
  }

  /** The last part of a path whose segments hold no separator and end in a non-empty one. */
  lemma {:induction false} BasenameOfJoin(segs: seq<string>)
    requires |segs| >= 1 && segs[|segs| - 1] != ""
    requires forall i :: 0 <= i < |segs| ==> '/' !in segs[i]
    ensures Basename(JoinSegments(segs)) == segs[|segs| - 1]
  {
    var n := |segs|;
    var b := segs[n - 1];
    assert '/' !in b;
    NoSlashAt(b);
    var q := if n >= 2 then JoinSegments(segs[..n - 1]) + "/" else "";
    assert JoinSegments(segs) == q + b by {
      if n >= 2 {
        JoinSnoc(segs);
      } else {
        assert "" + b == b;
      }
    }
    assert (q + b)[|q + b| - 1] == b[|b| - 1];
    assert TrimTrailingSlashes(q + b) == q + b;
    AfterLastSlashOf(q, b);
  }

  /** A string without `/` has none at any index. */
  lemma NoSlashAt(b: string)
    requires '/' !in b
    ensures forall k :: 0 <= k < |b| ==> b[k] != '/'
  {
    forall k | 0 <= k < |b| ensures b[k] != '/' {
      assert b[k] in b;
    }
  }

  lemma {:induction false} AfterLastSlashOf(q: string, b: string)
    requires q == "" || q[|q| - 1] == '/'
    requires forall k :: 0 <= k < |b| ==> b[k] != '/'
    ensures AfterLastSlash(q + b) == b
    decreases |b|
  {
    if b == [] {
      assert q + b == q;
    } else {
      var n := |b| - 1;
      var init := b[..n];
      var p := q + b;
      assert p[|p| - 1] == b[n] && b[n] != '/';
      assert p[..|p| - 1] == q + init;
      assert AfterLastSlash(p) == AfterLastSlash(q + init) + [b[n]];
      assert forall k :: 0 <= k < |init| ==> init[k] != '/' by {
        forall k | 0 <= k < |init| ensures init[k] != '/' {
          assert init[k] == b[k];
        }
      }
      AfterLastSlashOf(q, init);
      assert init + [b[n]] == b;
    }
  }
}
