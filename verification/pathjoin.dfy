/**
 * The `output_dir / normalized_path` join of extract_backup.py line 38 and
 * the `.parent` of line 39, for POSIX `pathlib` paths. A path is the
 * sequence of its components; the empty sequence is the root `/`.
 */
module PathJoin {

  /** An absolute path as its components: `/a/b` is `["a", "b"]`. */
  type Path = seq<string>

  /** The pieces of `s` between slashes, empty pieces included:
      `"a//b/"` gives `["a", "", "b", ""]`. */
  function Split(s: string): (r: seq<string>)
    ensures |r| >= 1
  {
    if s == [] then [""]
    else
      var rest := Split(s[1..]);
      if s[0] == '/' then [""] + rest
      else [[s[0]] + rest[0]] + rest[1..]
  }

  /** Text without a slash is one piece. */
  lemma {:induction false} SplitNoSlash(u: string)
    requires '/' !in u
    ensures Split(u) == [u]
    decreases |u|
  {
    if u != [] {
      SplitNoSlash(u[1..]);
      assert u == [u[0]] + u[1..];
    }
  }

  /** A slash after slash-free text ends the first piece there. */
  lemma {:induction false} SplitAtSlash(u: string, v: string)
    requires '/' !in u
    ensures Split(u + "/" + v) == [u] + Split(v)
    decreases |u|
  {
    var w := u + "/" + v;
    if u == [] {
      assert w[1..] == v;
    } else {
      SplitAtSlash(u[1..], v);
      assert w[1..] == u[1..] + "/" + v;
      assert u == [u[0]] + u[1..];
    }
  }

  /** No piece holds a slash, and every character of a piece comes from `s`. */
  lemma {:induction false} SplitPieces(s: string)
    ensures forall x, c :: x in Split(s) && c in x ==> c in s && c != '/'
    decreases |s|
  {
    if s != [] {
      SplitPieces(s[1..]);
      var rest := Split(s[1..]);
      forall x, c | x in Split(s) && c in x ensures c in s && c != '/' {
        if x in rest {
          assert c in s[1..];
        } else if s[0] != '/' {
          assert forall y :: y in rest[1..] ==> y in rest;
          assert x == [s[0]] + rest[0];
          if c != s[0] {
            assert c in rest[0] && rest[0] in rest;
          }
        }
      }
    }
  }

  /** The pieces joined back together with `/` between neighbours. */
  function JoinWithSlash(parts: seq<string>): string
  {
    if parts == [] then ""
    else if |parts| == 1 then parts[0]
    else parts[0] + "/" + JoinWithSlash(parts[1..])
  }

  /** Splitting loses nothing: the pieces and the slashes rebuild `s`. */
  lemma {:induction false} SplitRoundTrip(s: string)
    ensures JoinWithSlash(Split(s)) == s
    decreases |s|
  {
    if s != [] {
      var rest := Split(s[1..]);
      SplitRoundTrip(s[1..]);
      if s[0] == '/' {
        assert Split(s) == [""] + rest;
        assert s == [s[0]] + s[1..];
      } else {
        var r := Split(s);
        assert r == [[s[0]] + rest[0]] + rest[1..];
        if |rest| == 1 {
          assert s == [s[0]] + rest[0];
        } else {
          assert r[1..] == rest[1..];
          assert JoinWithSlash(rest) == rest[0] + "/" + JoinWithSlash(rest[1..]);
          assert s == [s[0]] + s[1..];
        }
      }
    }
  }

  /** The pieces `pathlib` keeps: empty pieces (from `//`, a leading or a
      trailing slash) and `.` pieces are dropped; `..` is kept. */
  function KeepNamed(parts: seq<string>): (r: seq<string>)
    ensures forall i :: 0 <= i < |r| ==> r[i] != "" && r[i] != "."
    ensures forall x :: x in r <==> x in parts && x != "" && x != "."
  {
    if parts == [] then []
    else if parts[0] == "" || parts[0] == "." then KeepNamed(parts[1..])
    else [parts[0]] + KeepNamed(parts[1..])
  }

  /** The components of a relative or absolute path string. */
  function Components(s: string): seq<string>
  {
    KeepNamed(Split(s))
  }

  /** A component is never empty, never `.`, holds no slash and is made of
      characters of the string it came from. */
  lemma ComponentsOf(s: string)
    ensures forall i :: 0 <= i < |Components(s)| ==>
              Components(s)[i] != "" && Components(s)[i] != "."
    ensures forall x, c :: x in Components(s) && c in x ==> c in s && c != '/'
  {
    SplitPieces(s);
  }

  /** `base / rel`: a relative `rel` extends `base`; one that starts with a
      slash is absolute and replaces `base` altogether. */
  function Join(base: Path, rel: string): Path
  {
    if rel != [] && rel[0] == '/' then Components(rel) else base + Components(rel)
  }

  /** A relative name lands under `base`, in the components of the name. */
  lemma JoinRelative(base: Path, rel: string)
    requires rel == [] || rel[0] != '/'
    ensures |Join(base, rel)| >= |base| && Join(base, rel)[..|base|] == base
    ensures Join(base, rel)[|base|..] == Components(rel)
  {
  }

  /** An absolute name does not depend on `base` at all, so it is not placed
      under it. */
  lemma JoinAbsolute(base1: Path, base2: Path, rel: string)
    requires rel != [] && rel[0] == '/'
    ensures Join(base1, rel) == Join(base2, rel) == Components(rel)
  {
  }

  /** `Path.parent`: the path without its last component; the root is its
      own parent. */
  function Parent(p: Path): (r: Path)
    ensures |r| == if p == [] then 0 else |p| - 1
    ensures r == p[..|r|]
  {
    if p == [] then [] else p[..|p| - 1]
  }

  /** Splitting keeps the empty pieces of a run of slashes and of a
      trailing slash. */
  lemma SplitExample(s: string)
    requires s == "a//./b/"
    ensures Split(s) == ["a", "", ".", "b", ""]
  {
    SplitNoSlash("");
    assert s[5..] == "b" + "/" + "";
    SplitAtSlash("b", "");
    assert s[3..] == "." + "/" + s[5..];
    SplitAtSlash(".", s[5..]);
    assert s[2..] == "" + "/" + s[3..];
    SplitAtSlash("", s[3..]);
    assert s == "a" + "/" + s[2..];
    SplitAtSlash("a", s[2..]);
  }

  /** Runs of slashes, `.` components and a trailing slash disappear. */
  lemma ComponentsExample(s: string)
    requires s == "a//./b/"
    ensures Components(s) == ["a", "b"]
  {
    SplitExample(s);
    var parts := Split(s);
    assert KeepNamed(parts[4..]) == [] by { assert parts[4..][1..] == []; }
    assert KeepNamed(parts[3..]) == ["b"] by { assert parts[3..][1..] == parts[4..]; }
    assert KeepNamed(parts[2..]) == ["b"] by { assert parts[2..][1..] == parts[3..]; }
    assert KeepNamed(parts[1..]) == ["b"] by { assert parts[1..][1..] == parts[2..]; }
  }

  /** `..` is kept as a component: the join does not stop a name from
      climbing out of the directory it is joined to. */
  lemma DotDotKept(s: string)
    requires s == "../x"
    ensures Components(s) == ["..", "x"]
  {
    assert s == ".." + "/" + "x";
    SplitNoSlash("x");
    SplitAtSlash("..", "x");
    var parts := Split(s);
    assert parts == ["..", "x"];
    assert parts[1..] == ["x"] && parts[1..][1..] == [];
    assert ".." != "" && ".." != "." && "x" != "" && "x" != ".";
    assert KeepNamed(parts[1..][1..]) == [];
    assert KeepNamed(parts[1..]) == ["x"];
    assert KeepNamed(parts) == [".."] + ["x"];
  }
}
