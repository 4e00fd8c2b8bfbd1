/**
 * The part of the filesystem extract_backup.py touches: which paths are
 * directories, which are files and what the files hold, and the three
 * calls lines 41-45 make on it: `Path.exists`, `Path.mkdir(parents=True)`
 * and `open(path, 'wb')` followed by `write`.
 */
module FileTree {
  import opened PathJoin

  newtype byte = x: int | 0 <= x < 256

  datatype Option<T> = None | Some(value: T)

  /** Directories, and files with their contents. */
  datatype Tree = Tree(dirs: set<Path>, files: map<Path, seq<byte>>)

  /** The proper prefixes of `p`: every directory `p` lies in. */
  function Ancestors(p: Path): set<Path>
  {
    set i | 0 <= i < |p| :: p[..i]
  }

  /** The root is a directory, every directory and file lies in directories
      only, and no path is both a directory and a file. */
  ghost predicate WellFormed(t: Tree)
  {
    && [] in t.dirs
    && (forall d, i :: d in t.dirs && 0 <= i < |d| ==> d[..i] in t.dirs)
    && (forall f, i :: f in t.files && 0 <= i < |f| ==> f[..i] in t.dirs)
    && (forall p :: p in t.dirs ==> p !in t.files)
  }

  /** `Path.exists`: a directory or a file is there. */
  predicate Exists(t: Tree, p: Path)
  {
    p in t.dirs || p in t.files
  }

  /** `Path.mkdir(parents=True)`: refused when the path exists or when one
      of the directories it would lie in is a file; otherwise the path and
      every missing directory above it are created. */
  function AfterMkdir(t: Tree, q: Path): Option<Tree>
  {
    if Exists(t, q) || !(Ancestors(q) !! t.files.Keys) then None
    else Some(Tree(t.dirs + Ancestors(q) + {q}, t.files))
  }

  /** `open(p, 'wb')` and `write(content)`: refused when `p` is a directory
      or its parent is not one; otherwise `p` holds exactly `content`. */
  function AfterWrite(t: Tree, p: Path, content: seq<byte>): Option<Tree>
  {
    if p in t.dirs || Parent(p) !in t.dirs then None
    else Some(Tree(t.dirs, t.files[p := content]))
  }

  /** The filesystem after a step that either completed or raised
      `OSError`, together with which of the two happened. */
  datatype Attempt = Done(tree: Tree) | Raised(tree: Tree)

  /** Lines 39-45 for one member at destination `p`: create the parent
      directory when it does not exist, then write the file. */
  function AfterStore(t: Tree, p: Path, content: seq<byte>): Attempt
  {
    var q := Parent(p);
    var t1 := if Exists(t, q) then Some(t) else AfterMkdir(t, q);
    match t1
    case None => Raised(t)
    case Some(t1) =>
      match AfterWrite(t1, p, content)
      case None => Raised(t1)
      case Some(t2) => Done(t2)
  }

  /** The ancestors of a path are those of its parent and the parent. */
  lemma AncestorsOfChild(p: Path)
    requires p != []
    ensures Ancestors(p) == Ancestors(Parent(p)) + {Parent(p)}
  {
    var q := Parent(p);
    forall x | x in Ancestors(p) ensures x in Ancestors(q) + {q} {
      var i :| 0 <= i < |p| && x == p[..i];
      if i < |q| {
        assert x == q[..i];
      }
    }
    forall x | x in Ancestors(q) ensures x in Ancestors(p) {
      var i :| 0 <= i < |q| && x == q[..i];
      assert x == p[..i];
    }
    assert q == p[..|q|];
  }

  /** In a well-formed tree the ancestors of a directory are directories. */
  lemma AncestorsOfDir(t: Tree, d: Path)
    requires WellFormed(t) && d in t.dirs
    ensures Ancestors(d) <= t.dirs
  {
  }

  /** A successful `mkdir(parents=True)` keeps the tree well formed. */
  lemma MkdirKeepsWellFormed(t: Tree, q: Path)
    requires WellFormed(t) && AfterMkdir(t, q).Some?
    ensures WellFormed(AfterMkdir(t, q).value)
  {
    var t1 := AfterMkdir(t, q).value;
    forall d, i | d in t1.dirs && 0 <= i < |d| ensures d[..i] in t1.dirs {
      if d in Ancestors(q) {
        var j :| 0 <= j < |q| && d == q[..j];
        assert d[..i] == q[..i];
      } else if d == q {
        assert d[..i] in Ancestors(q);
      }
    }
  }

  /** A successful write keeps the tree well formed. */
  lemma WriteKeepsWellFormed(t: Tree, p: Path, content: seq<byte>)
    requires WellFormed(t) && AfterWrite(t, p, content).Some?
    ensures WellFormed(AfterWrite(t, p, content).value)
  {
    var t1 := AfterWrite(t, p, content).value;
    forall f, i | f in t1.files && 0 <= i < |f| ensures f[..i] in t1.dirs {
      if f == p {
        var q := Parent(p);
        if i < |q| {
          assert f[..i] == q[..i];
        } else {
          assert f[..i] == q;
        }
      }
    }
  }

  /** Storing one member succeeds exactly when its destination is not a
      directory (the root included) and no directory above it is a file.
      On success the destination holds the member's bytes, no other file
      changes, the destination's parent directory exists, and the only new
      directories are those above the destination. On failure nothing
      changes. */
  lemma StoreMember(t: Tree, p: Path, content: seq<byte>)
    requires WellFormed(t)
    ensures AfterStore(t, p, content).Done? <==>
              p != [] && p !in t.dirs && Ancestors(p) !! t.files.Keys
    ensures var t1 := AfterStore(t, p, content).tree;
            if AfterStore(t, p, content).Done? then
              && WellFormed(t1)
              && t1.files == t.files[p := content]
              && Parent(p) in t1.dirs
              && t.dirs <= t1.dirs <= t.dirs + Ancestors(p)
            else t1 == t
  {
    var q := Parent(p);
    if p == [] {
      assert q in t.dirs;
    } else {
      AncestorsOfChild(p);
      if q in t.dirs {
        AncestorsOfDir(t, q);
        if AfterWrite(t, p, content).Some? {
          WriteKeepsWellFormed(t, p, content);
        }
      } else if q in t.files {
        assert q in Ancestors(p);
      } else {
        assert p !in t.dirs;
        if AfterMkdir(t, q).Some? {
          MkdirKeepsWellFormed(t, q);
          var t1 := AfterMkdir(t, q).value;
          assert p !in t1.dirs by {
            forall x | x in Ancestors(q) ensures x != p {
              var i :| 0 <= i < |q| && x == q[..i];
            }
          }
          WriteKeepsWellFormed(t1, p, content);
        }
      }
    }
  }

  /** The filesystem the extraction runs against. */
  class FileSystem {
    var dirs: set<Path>
    var files: map<Path, seq<byte>>

    /** The filesystem as a value. */
    function View(): Tree
      reads this
    {
      Tree(dirs, files)
    }

    constructor (t: Tree)
      ensures View() == t
    {
      dirs := t.dirs;
      files := t.files;
    }

    /** `Path.exists` (line 41). */
    method PathExists(p: Path) returns (b: bool)
      ensures b <==> p in View().dirs || p in View().files
    {
      b := p in dirs || p in files;
    }

    /** `Path.mkdir(parents=True)` (line 42); `ok` is false where it raises. */
    method Mkdir(q: Path) returns (ok: bool)
      modifies this
      ensures ok == AfterMkdir(old(View()), q).Some?
      ensures View() == if ok then AfterMkdir(old(View()), q).value else old(View())
    {
      ok := !(q in dirs || q in files) && Ancestors(q) !! files.Keys;
      if ok {
        dirs := dirs + Ancestors(q) + {q};
      }
    }

    /** `open(p, 'wb')` and `write` (lines 44-45); `ok` is false where the
        open raises. */
    method WriteBytes(p: Path, content: seq<byte>) returns (ok: bool)
      modifies this
      ensures ok == AfterWrite(old(View()), p, content).Some?
      ensures View() == if ok then AfterWrite(old(View()), p, content).value else old(View())
    {
      ok := !(p in dirs) && Parent(p) in dirs;
      if ok {
        files := files[p := content];
      }
    }
  }
}
