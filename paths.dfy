/**
 * Absolute file-system paths as sequences of name segments, the way the
 * deployer builds them with `Paths.get(URI.create("file:///" + s))` and
 * `Paths.get(base, more)`, and prints them with `toAbsolutePath().toString()`.
 */
module Paths {

  /** An absolute path: the root is [], "/a/b" is ["a", "b"]. */
  type Path = seq<string>

  /** `q` lies lexically under `p` (or is `p`). */
  predicate IsPrefix(p: Path, q: Path) {
    |p| <= |q| && q[..|p|] == p
  }

  /** Java's `String.startsWith`. */
  predicate StartsWith(s: string, prefix: string) {
    |prefix| <= |s| && s[..|prefix|] == prefix
  }

  /** Every segment is a real file name: not empty and without a separator. */
  predicate ValidPath(p: Path) {
    forall i :: 0 <= i < |p| ==> p[i] != "" && '/' !in p[i]
  }

  function Segment(cur: string): Path {
    if cur == "" then [] else [cur]
  }

  /** Splits a path string on '/', dropping the empty segments that
      repeated, leading and trailing separators produce; `cur` is the
      segment read so far. */
  function SplitFrom(s: string, cur: string): Path
    decreases |s|
  {
    if s == [] then Segment(cur)
    else if s[0] == '/' then Segment(cur) + SplitFrom(s[1..], "")
    else SplitFrom(s[1..], cur + [s[0]])
  }

  /** The path that `Paths.get` builds from a string: "/a//b/" and "a/b" both give ["a", "b"]. */
  function Split(s: string): Path {
    SplitFrom(s, "")
  }

  /** "/a/b" for ["a", "b"], "" for []. */
  function Join(p: Path): string {
    if p == [] then "" else "/" + p[0] + Join(p[1..])
  }

  /** The text of an absolute path, as `toAbsolutePath().toString()` prints it. */
  function Render(p: Path): string {
    if p == [] then "/" else Join(p)
  }

  lemma {:induction false} SegmentTextIsRead(seg: string, rest: string, cur: string)
    requires '/' !in seg
    ensures SplitFrom(seg + rest, cur) == SplitFrom(rest, cur + seg)
    decreases |seg|
  {
    if seg != [] {
      assert (seg + rest)[0] == seg[0];
      assert (seg + rest)[1..] == seg[1..] + rest;
      assert cur + seg == (cur + [seg[0]]) + seg[1..];
      SegmentTextIsRead(seg[1..], rest, cur + [seg[0]]);
    } else {
      assert seg + rest == rest;
      assert cur + seg == cur;
    }
  }

  lemma {:induction false} SplitJoin(p: Path)
    requires ValidPath(p)
    ensures Split(Join(p)) == p
    decreases |p|
  {
    if p != [] {
      var rest := Join(p[1..]);
      assert Join(p) == "/" + (p[0] + rest);
      assert SplitFrom(Join(p), "") == Segment("") + SplitFrom(p[0] + rest, "");
      SegmentTextIsRead(p[0], rest, "");
      assert "" + p[0] == p[0];
      assert ValidPath(p[1..]) by {
        forall i | 0 <= i < |p[1..]| ensures p[1..][i] != "" && '/' !in p[1..][i] {
          assert p[1..][i] == p[i + 1];
        }
      }
      SplitJoin(p[1..]);
      if p[1..] == [] {
        assert SplitFrom(rest, p[0]) == [p[0]];
      } else {
        assert rest[0] == '/';
        assert SplitFrom(rest, p[0]) == [p[0]] + SplitFrom(rest[1..], "");
        assert SplitFrom(rest, "") == SplitFrom(rest[1..], "");
      }
      assert p == [p[0]] + p[1..];
    }
  }

  /** Parsing the printed form of a path gives the path back. */
  lemma SplitRender(p: Path)
    requires ValidPath(p)
    ensures Split(Render(p)) == p
  {
    if p == [] {
      assert Render(p) == "/";
      assert SplitFrom("/", "") == Segment("") + SplitFrom([], "");
    } else {
      SplitJoin(p);
    }
  }

  lemma {:induction false} SplitFromValid(s: string, cur: string)
    requires '/' !in cur
    ensures ValidPath(SplitFrom(s, cur))
    decreases |s|
  {
    if s != [] {
      if s[0] == '/' {
        SplitFromValid(s[1..], "");
      } else {
        SplitFromValid(s[1..], cur + [s[0]]);
      }
    }
  }

  /** Whatever string a path is built from, its segments are real file names. */
  lemma SplitIsValid(s: string)
    ensures ValidPath(Split(s))
  {
    SplitFromValid(s, "");
  }

  /** Building a path from a string normalises it once and for all:
      printing it and building again changes nothing. */
  lemma SplitNormalises(s: string)
    ensures Split(Render(Split(s))) == Split(s)
  {
    SplitIsValid(s);
    SplitRender(Split(s));
  }

  /** Two prefixes of one path are comparable: one lies under the other. */
  lemma PrefixesOfOnePath(a: Path, b: Path, p: Path)
    requires IsPrefix(a, p) && IsPrefix(b, p)
    ensures IsPrefix(a, b) || IsPrefix(b, a)
  {
    if |a| <= |b| {
      assert b[..|a|] == p[..|b|][..|a|] == p[..|a|];
    } else {
      assert a[..|b|] == p[..|a|][..|b|] == p[..|b|];
    }
  }
}
