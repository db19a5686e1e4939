/**
 * Node's `path.dirname` and `path.join` on absolute POSIX paths. A path is
 * kept in normal form as the list of its segments below the root, so `/a/b`
 * is `["a", "b"]` and `/` is `[]`.
 */
module Paths {
  import opened Strings

  type Path = seq<string>

  /** A segment that survives normalisation: not empty, not `.`, not `..`. */
  predicate Plain(seg: string) {
    seg != "" && seg != "." && seg != ".."
  }

  predicate Normal(p: Path) {
    forall i :: 0 <= i < |p| ==> Plain(p[i])
  }

  /** `path.dirname`: drops the last segment; the root is its own parent. */
  function Dirname(p: Path): (d: Path)
    ensures Normal(p) ==> Normal(d)
  {
    if |p| == 0 then p else p[..|p| - 1]
  }

  /**
   * Appends `segs` to `p` the way `path.normalize` does: empty segments and
   * `.` are dropped, `..` goes up one level but never above the root.
   */
  function Resolve(p: Path, segs: seq<string>): (r: Path)
    ensures Normal(p) ==> Normal(r)
    decreases |segs|
  {
    if |segs| == 0 then p
    else
      var s := segs[0];
      var next := if s == "" || s == "." then p else if s == ".." then Dirname(p) else p + [s];
      Resolve(next, segs[1..])
  }

  /** `path.join(p, rel)` for an absolute `p` and a `/`-separated `rel`. */
  function Join(p: Path, rel: string): Path {
    Resolve(p, Split(rel, '/'))
  }

  /** Plain segments are appended as they are. */
  lemma {:induction false} ResolvePlain(p: Path, segs: seq<string>)
    requires Normal(segs)
    ensures Resolve(p, segs) == p + segs
    decreases |segs|
  {
    if |segs| > 0 {
      ResolvePlain(p + [segs[0]], segs[1..]);
      assert p + [segs[0]] + segs[1..] == p + segs;
    }
  }

  /** Without a `..` segment the result stays below `p`. */
  lemma {:induction false} ResolveStaysUnder(p: Path, segs: seq<string>)
    requires forall i :: 0 <= i < |segs| ==> segs[i] != ".."
    ensures |p| <= |Resolve(p, segs)| && Resolve(p, segs)[..|p|] == p
    decreases |segs|
  {
    if |segs| > 0 {
      var s := segs[0];
      var next := if s == "" || s == "." then p else p + [s];
      ResolveStaysUnder(next, segs[1..]);
      assert next[..|p|] == p;
      assert Resolve(p, segs)[..|p|] == Resolve(next, segs[1..])[..|next|][..|p|];
    }
  }

  /**
   * Joining a name none of whose `/`-separated parts is `..` gives a path
   * inside `p`; when every part is plain it is `p` followed by those parts.
   */
  lemma JoinUnder(p: Path, rel: string)
    ensures (forall i :: 0 <= i < |Split(rel, '/')| ==> Split(rel, '/')[i] != "..") ==>
      |p| <= |Join(p, rel)| && Join(p, rel)[..|p|] == p
    ensures Normal(Split(rel, '/')) ==> Join(p, rel) == p + Split(rel, '/')
  {
    if forall i :: 0 <= i < |Split(rel, '/')| ==> Split(rel, '/')[i] != ".." {
      ResolveStaysUnder(p, Split(rel, '/'));
    }
    if Normal(Split(rel, '/')) {
      ResolvePlain(p, Split(rel, '/'));
    }
  }

  /** A name without `/` splits into itself. */
  lemma SplitSingle(name: string)
    requires '/' !in name
    ensures Split(name, '/') == [name]
  {
    SplitGlue(name, '/');
    var parts := Split(name, '/');
    if |parts| > 1 {
      GlueLongerThanLast(parts, '/');
      GlueHasSeparator(parts, '/');
    }
  }

  lemma {:induction false} GlueHasSeparator(parts: seq<string>, sep: char)
    requires |parts| >= 2
    ensures sep in Glue(parts, sep)
    decreases |parts|
  {
    var g := Glue(parts, sep);
    assert g == parts[0] + [sep] + Glue(parts[1..], sep);
    assert g[|parts[0]|] == sep;
  }

  /** Joining one plain segment appends it; joining `..` is `Dirname`. */
  lemma JoinSegment(p: Path, seg: string)
    requires '/' !in seg
    ensures Plain(seg) ==> Join(p, seg) == p + [seg]
    ensures seg == ".." ==> Join(p, seg) == Dirname(p)
  {
    SplitSingle(seg);
    assert [seg][1..] == [];
    assert Join(p, seg) == Resolve(if seg == "" || seg == "." then p else if seg == ".." then Dirname(p) else p + [seg], []);
  }
}
