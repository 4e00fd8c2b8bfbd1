/**
 * `extract_zip_file` (extract_backup.py lines 31-47) and `extract_backup`
 * (lines 49-76) over the filesystem of module FileTree.
 *
 * An archive is what `zipfile.ZipFile` yields: its members in `namelist()`
 * order, or `None` when it raises `BadZipFile` on opening. The backup root
 * is given as the list of its `Backup Files *` folders, each the list of its
 * `*.zip` archives, in the order the globs return them.
 */
module Extractor {
  import opened PathJoin
  import opened FileTree
  import opened Normalizer

  /** One archive member: its stored name and its bytes. */
  datatype Member = Member(name: string, content: seq<byte>)

  /** `None`: the file is not a valid ZIP archive. */
  type Archive = Option<seq<Member>>

  /** One file write the run performs: destination and bytes. */
  datatype Write = Write(dest: Path, content: seq<byte>)

  /** A run in progress, or one stopped by an `OSError` raised while
      writing to `at`; either way with the filesystem as it stands. */
  datatype Run = Running(tree: Tree) | Aborted(at: Path, tree: Tree)

  /** How `extract_backup` ends: normally, by the early return of line 65,
      or by an `OSError` that escapes it. */
  datatype Outcome = Completed | RootMissing | OsError(at: Path)

  datatype Final = Final(outcome: Outcome, tree: Tree)

  /** Lines 37-38: where the member named `name` is written. */
  function Destination(out: Path, name: string): Path
  {
    Join(out, Normalize(name))
  }

  /** One member write; an aborted run stays aborted. */
  function Step(r: Run, w: Write): Run
  {
    match r
    case Aborted(_, _) => r
    case Running(t) =>
      match AfterStore(t, w.dest, w.content)
      case Done(t1) => Running(t1)
      case Raised(t1) => Aborted(w.dest, t1)
  }

  /** The writes `ws` performed one after the other, first to last. */
  function Replay(r: Run, ws: seq<Write>): Run
    decreases |ws|
  {
    if ws == [] then r else Step(Replay(r, ws[..|ws| - 1]), ws[|ws| - 1])
  }

  /** `f` applied to each element of `xs`, the results concatenated. */
  function FlatMap<A, B>(f: A -> seq<B>, xs: seq<A>): seq<B>
    decreases |xs|
  {
    if xs == [] then [] else FlatMap(f, xs[..|xs| - 1]) + f(xs[|xs| - 1])
  }

  lemma FlatMapSnoc<A, B>(f: A -> seq<B>, xs: seq<A>, x: A)
    ensures FlatMap(f, xs + [x]) == FlatMap(f, xs) + f(x)
  {
    assert (xs + [x])[..|xs|] == xs;
  }

  lemma {:induction false} FlatMapConcat<A, B>(f: A -> seq<B>, a: seq<A>, b: seq<A>)
    ensures FlatMap(f, a + b) == FlatMap(f, a) + FlatMap(f, b)
    decreases |b|
  {
    if b == [] {
      assert a + b == a;
    } else {
      var b0 := b[..|b| - 1];
      FlatMapConcat(f, a, b0);
      assert (a + b)[..|a + b| - 1] == a + b0;
      assert (a + b)[|a + b| - 1] == b[|b| - 1];
    }
  }

  /** `zip_ref.open(name).read()` (line 44): the archive looks members up
      by name, and a name listed more than once stands for its last entry.
      Only ever asked for a name the archive lists. */
  function OpenRead(ms: seq<Member>, name: string): seq<byte>
  {
    if ms == [] then []
    else if ms[|ms| - 1].name == name then ms[|ms| - 1].content
    else OpenRead(ms[..|ms| - 1], name)
  }

  /** The bytes read for a name are those of the last entry with that name;
      in particular a name listed once reads its own entry. */
  lemma {:induction false} OpenReadLast(ms: seq<Member>, j: int)
    requires 0 <= j < |ms|
    requires forall k :: j < k < |ms| ==> ms[k].name != ms[j].name
    ensures OpenRead(ms, ms[j].name) == ms[j].content
    decreases |ms|
  {
    var n := |ms| - 1;
    if j < n {
      assert ms[n].name != ms[j].name;
      OpenReadLast(ms[..n], j);
    }
  }

  /** The write of one member of the archive `ms` (lines 37-45). */
  function MemberWrite(out: Path, ms: seq<Member>): Member -> seq<Write>
  {
    (m: Member) => [Write(Destination(out, m.name), OpenRead(ms, m.name))]
  }

  /** The writes of one archive, in `namelist()` order (lines 35-45); a bad
      archive writes nothing (lines 46-47). */
  function ArchiveWrites(out: Path, a: Archive): seq<Write>
  {
    match a
    case None => []
    case Some(ms) => FlatMap(MemberWrite(out, ms), ms)
  }

  function ArchiveWritesOf(out: Path): Archive -> seq<Write>
  {
    (a: Archive) => ArchiveWrites(out, a)
  }

  /** The writes of the archives of one folder, in order (lines 72-74). */
  function FolderWrites(out: Path, archives: seq<Archive>): seq<Write>
  {
    FlatMap(ArchiveWritesOf(out), archives)
  }

  function FolderWritesOf(out: Path): seq<Archive> -> seq<Write>
  {
    (f: seq<Archive>) => FolderWrites(out, f)
  }

  /** The writes of all folders, in order (lines 70-74). */
  function BackupWrites(out: Path, folders: seq<seq<Archive>>): seq<Write>
  {
    FlatMap(FolderWritesOf(out), folders)
  }

  /** Lines 67-68: the output directory is created, with its parents, when
      nothing exists at its path. */
  function PrepareOutput(t: Tree, out: Path): Option<Tree>
  {
    if Exists(t, out) then Some(t) else AfterMkdir(t, out)
  }

  /** What `extract_backup` does to the filesystem and how it ends. */
  function Extraction(rootExists: bool, t: Tree, out: Path, folders: seq<seq<Archive>>): Final
  {
    if !rootExists then Final(RootMissing, t)
    else
      match PrepareOutput(t, out)
      case None => Final(OsError(out), t)
      case Some(t1) =>
        match Replay(Running(t1), BackupWrites(out, folders))
        case Running(t2) => Final(Completed, t2)
        case Aborted(p, t2) => Final(OsError(p), t2)
  }

  // ---------------------------------------------------------------------
  // Replaying writes

  /** Writes can be replayed in two halves. */
  lemma {:induction false} ReplayConcat(r: Run, a: seq<Write>, b: seq<Write>)
    ensures Replay(r, a + b) == Replay(Replay(r, a), b)
    decreases |b|
  {
    if b == [] {
      assert a + b == a;
    } else {
      var b0 := b[..|b| - 1];
      ReplayConcat(r, a, b0);
      assert (a + b)[..|a + b| - 1] == a + b0;
      assert (a + b)[|a + b| - 1] == b[|b| - 1];
    }
  }

  /** Once an `OSError` has escaped, no later member is written. */
  lemma {:induction false} AbortedStays(at: Path, t: Tree, ws: seq<Write>)
    ensures Replay(Aborted(at, t), ws) == Aborted(at, t)
    decreases |ws|
  {
    if ws != [] {
      AbortedStays(at, t, ws[..|ws| - 1]);
    }
  }

  /** A run that aborts within a prefix of the writes ends exactly there. */
  lemma AbortPropagates(r: Run, pre: seq<Write>, ws: seq<Write>)
    requires pre <= ws && Replay(r, pre).Aborted?
    ensures Replay(r, ws) == Replay(r, pre)
  {
    assert ws == pre + ws[|pre|..];
    ReplayConcat(r, pre, ws[|pre|..]);
    AbortedStays(Replay(r, pre).at, Replay(r, pre).tree, ws[|pre|..]);
  }

  /** The content last written to `p`, if any write goes to `p`. */
  function LastWrite(ws: seq<Write>, p: Path): Option<seq<byte>>
    decreases |ws|
  {
    if ws == [] then None
    else if ws[|ws| - 1].dest == p then Some(ws[|ws| - 1].content)
    else LastWrite(ws[..|ws| - 1], p)
  }

  /** `LastWrite` finds the write with the highest index among those to
      `p`, and finds none exactly when no write goes to `p`. */
  lemma {:induction false} LastWriteIndex(ws: seq<Write>, p: Path)
    ensures LastWrite(ws, p).None? <==> forall i :: 0 <= i < |ws| ==> ws[i].dest != p
    ensures LastWrite(ws, p).Some? ==>
              exists j :: 0 <= j < |ws| && ws[j].dest == p && ws[j].content == LastWrite(ws, p).value
                && forall k :: j < k < |ws| ==> ws[k].dest != p
    decreases |ws|
  {
    if ws != [] {
      var n := |ws| - 1;
      LastWriteIndex(ws[..n], p);
      if ws[n].dest != p && LastWrite(ws[..n], p).Some? {
        var j :| 0 <= j < n && ws[..n][j].dest == p && ws[..n][j].content == LastWrite(ws[..n], p).value
                 && forall k :: j < k < n ==> ws[..n][k].dest != p;
        assert ws[j] == ws[..n][j];
        assert forall k :: j < k < |ws| ==> ws[k].dest != p by {
          forall k | j < k < |ws| ensures ws[k].dest != p {
            if k < n {
              assert ws[k] == ws[..n][k];
            }
          }
        }
      } else if ws[n].dest != p {
        assert forall i :: 0 <= i < n ==> ws[i] == ws[..n][i];
      }
    }
  }

  /** Writes that come later take precedence: a path's last write in
      `a + b` is its last write in `b`, or in `a` when `b` does not write
      it. */
  lemma {:induction false} LaterWriteWins(a: seq<Write>, b: seq<Write>, p: Path)
    ensures LastWrite(a + b, p) == if LastWrite(b, p).Some? then LastWrite(b, p) else LastWrite(a, p)
    decreases |b|
  {
    if b == [] {
      assert a + b == a;
    } else {
      var b0 := b[..|b| - 1];
      LaterWriteWins(a, b0, p);
      assert (a + b)[..|a + b| - 1] == a + b0;
      assert (a + b)[|a + b| - 1] == b[|b| - 1];
    }
  }

  /** The files after the writes `ws`, applied one after the other. */
  function Overlay(files: map<Path, seq<byte>>, ws: seq<Write>): map<Path, seq<byte>>
    decreases |ws|
  {
    if ws == [] then files
    else Overlay(files, ws[..|ws| - 1])[ws[|ws| - 1].dest := ws[|ws| - 1].content]
  }

  /** After the writes, a path holds its last write, and a path no write
      goes to is as it was. */
  lemma {:induction false} OverlayAt(files: map<Path, seq<byte>>, ws: seq<Write>, p: Path)
    ensures p in Overlay(files, ws) <==> p in files || LastWrite(ws, p).Some?
    ensures p in Overlay(files, ws) ==>
              Overlay(files, ws)[p] == if LastWrite(ws, p).Some? then LastWrite(ws, p).value else files[p]
    decreases |ws|
  {
    if ws != [] {
      OverlayAt(files, ws[..|ws| - 1], p);
    }
  }

  /** A run that completes performs every write, in order, on the files. */
  lemma {:induction false} ReplayFiles(t: Tree, ws: seq<Write>)
    requires Replay(Running(t), ws).Running?
    ensures Replay(Running(t), ws).tree.files == Overlay(t.files, ws)
    decreases |ws|
  {
    if ws != [] {
      var n := |ws| - 1;
      ReplayFiles(t, ws[..n]);
    }
  }

  /** From a well-formed filesystem, any run keeps it well formed and never
      removes a directory. */
  lemma {:induction false} ReplayKeepsWellFormed(t: Tree, ws: seq<Write>)
    requires WellFormed(t)
    ensures WellFormed(Replay(Running(t), ws).tree)
    ensures t.dirs <= Replay(Running(t), ws).tree.dirs
    decreases |ws|
  {
    if ws != [] {
      var n := |ws| - 1;
      ReplayKeepsWellFormed(t, ws[..n]);
      var r := Replay(Running(t), ws[..n]);
      if r.Running? {
        StoreMember(r.tree, ws[n].dest, ws[n].content);
      }
    }
  }

  /** A run that aborts does so at the first write that cannot be stored:
      every write before it was performed, and the filesystem is left as
      it was after them. */
  lemma {:induction false} ReplayAborted(t: Tree, ws: seq<Write>)
    requires WellFormed(t) && Replay(Running(t), ws).Aborted?
    ensures var r := Replay(Running(t), ws);
            exists k :: 0 <= k < |ws| && ws[k].dest == r.at
              && Replay(Running(t), ws[..k]) == Running(r.tree)
              && AfterStore(r.tree, ws[k].dest, ws[k].content).Raised?
    decreases |ws|
  {
    var n := |ws| - 1;
    var r0 := Replay(Running(t), ws[..n]);
    if r0.Aborted? {
      ReplayAborted(t, ws[..n]);
      var k :| 0 <= k < n && ws[..n][k].dest == r0.at
                && Replay(Running(t), ws[..n][..k]) == Running(r0.tree)
                && AfterStore(r0.tree, ws[..n][k].dest, ws[..n][k].content).Raised?;
      assert ws[..n][..k] == ws[..k] && ws[..n][k] == ws[k];
    } else {
      ReplayKeepsWellFormed(t, ws[..n]);
      StoreMember(r0.tree, ws[n].dest, ws[n].content);
    }
  }

  /** A completed run from a well-formed filesystem: every written path
      holds the content of the last write to it, a path that no write goes
      to keeps its state, and the parent directory of every file exists. */
  lemma LastWriterWins(t: Tree, ws: seq<Write>, p: Path)
    requires WellFormed(t) && Replay(Running(t), ws).Running?
    ensures var t1 := Replay(Running(t), ws).tree;
            && (LastWrite(ws, p).Some? ==> p in t1.files && t1.files[p] == LastWrite(ws, p).value)
            && (LastWrite(ws, p).None? ==> (p in t1.files <==> p in t.files) && (p in t.files ==> t1.files[p] == t.files[p]))
            && (p in t1.files ==> Parent(p) in t1.dirs)
  {
    ReplayFiles(t, ws);
    OverlayAt(t.files, ws, p);
    ReplayKeepsWellFormed(t, ws);
    var t1 := Replay(Running(t), ws).tree;
    if p in t1.files && p != [] {
      assert p[..|p| - 1] in t1.dirs;
    }
  }

  /** A path that no write goes to is not touched by a run, even one that
      aborts. */
  lemma {:induction false} UntouchedPath(t: Tree, ws: seq<Write>, p: Path)
    requires WellFormed(t) && forall i :: 0 <= i < |ws| ==> ws[i].dest != p
    ensures p in Replay(Running(t), ws).tree.files <==> p in t.files
    ensures p in t.files ==> Replay(Running(t), ws).tree.files[p] == t.files[p]
    decreases |ws|
  {
    if ws != [] {
      var n := |ws| - 1;
      UntouchedPath(t, ws[..n], p);
      var r := Replay(Running(t), ws[..n]);
      if r.Running? {
        ReplayKeepsWellFormed(t, ws[..n]);
        StoreMember(r.tree, ws[n].dest, ws[n].content);
      }
    }
  }

  // ---------------------------------------------------------------------
  // Archives and folders

  /** When `f` gives one element per input, `FlatMap` is an element-wise map. */
  lemma {:induction false} FlatMapSingle<A, B>(f: A -> seq<B>, xs: seq<A>, i: int)
    requires forall x :: |f(x)| == 1
    requires 0 <= i < |xs|
    ensures |FlatMap(f, xs)| == |xs|
    ensures FlatMap(f, xs)[i] == f(xs[i])[0]
    decreases |xs|
  {
    var n := |xs| - 1;
    if i < n {
      FlatMapSingle(f, xs[..n], i);
    } else if n > 0 {
      FlatMapSingle(f, xs[..n], 0);
    }
  }

  /** A good archive yields one write per member, in listing order, each
      to the member's normalised name. */
  lemma ArchiveWriteAt(out: Path, ms: seq<Member>, i: int)
    requires 0 <= i < |ms|
    ensures |ArchiveWrites(out, Some(ms))| == |ms|
    ensures ArchiveWrites(out, Some(ms))[i] == Write(Join(out, Normalize(ms[i].name)), OpenRead(ms, ms[i].name))
  {
    FlatMapSingle(MemberWrite(out, ms), ms, i);
  }

  /** For a member whose normalised name is relative, the destination
      `pathlib` builds starts with the components of `out`, followed by
      components free of backslashes, percent signs and slashes. Nothing
      is resolved: a `..` among the following components can take the
      destination outside `out` once the operating system resolves it
      (`DotDotEscapesOutput`), and one follows exactly when the name has
      a `..` component. */
  lemma DestinationBelowOutput(out: Path, name: string)
    requires Normalize(name) == [] || Normalize(name)[0] != '/'
    ensures var d := Destination(out, name);
            && |d| >= |out| && d[..|out|] == out
            && (forall x, c :: x in d[|out|..] && c in x ==> c != '\\' && c != '%' && c != '/')
            && (".." in d[|out|..] <==> ".." in Components(Normalize(name)))
  {
    JoinRelative(out, Normalize(name));
    ComponentsOf(Normalize(name));
  }

  /** A relative name can still climb out of `out`: `..\x` is written to
      `out/../x`, a sibling of the output directory once the operating
      system resolves it. */
  lemma DotDotEscapesOutput(out: Path, name: string)
    requires name == "..\\x"
    ensures Normalize(name) == "../x"
    ensures Destination(out, name) == out + ["..", "x"]
  {
    DotDotNormalized(name);
    var rel := Normalize(name);
    DotDotKept(rel);
    assert Join(out, rel) == out + Components(rel);
  }

  /** A name listed twice writes the bytes of its last entry both times. */
  lemma DuplicateNameReadsLast(out: Path, ms: seq<Member>, n: string, a: seq<byte>, b: seq<byte>)
    requires ms == [Member(n, a), Member(n, b)]
    ensures ArchiveWrites(out, Some(ms)) == [Write(Destination(out, n), b), Write(Destination(out, n), b)]
  {
    OpenReadLast(ms, 1);
    ArchiveWriteAt(out, ms, 0);
    ArchiveWriteAt(out, ms, 1);
  }

  /** The output directory does not contain every destination: a member
      whose name starts with a backslash is written to the same absolute
      path whatever the output directory is. */
  lemma LeadingBackslashEscapesOutput(out1: Path, out2: Path, name: string)
    requires name != [] && name[0] == '\\'
    ensures Destination(out1, name) == Destination(out2, name)
  {
    LeadingBackslashBecomesRoot(name);
  }

  /** The writes of two runs of archives follow each other. */
  lemma FolderWritesConcat(out: Path, a: seq<Archive>, b: seq<Archive>)
    ensures FolderWrites(out, a + b) == FolderWrites(out, a) + FolderWrites(out, b)
  {
    FlatMapConcat(ArchiveWritesOf(out), a, b);
  }

  /** The writes of two runs of folders follow each other. */
  lemma BackupWritesConcat(out: Path, a: seq<seq<Archive>>, b: seq<seq<Archive>>)
    ensures BackupWrites(out, a + b) == BackupWrites(out, a) + BackupWrites(out, b)
  {
    FlatMapConcat(FolderWritesOf(out), a, b);
  }

  /** A bad archive inside a folder contributes no write. */
  lemma BadArchiveInFolder(out: Path, a1: seq<Archive>, a2: seq<Archive>)
    ensures FolderWrites(out, a1 + [None] + a2) == FolderWrites(out, a1 + a2)
  {
    var bad: seq<Archive> := [None];
    FolderWritesConcat(out, a1 + bad, a2);
    FolderWritesConcat(out, a1, bad);
    FolderWritesConcat(out, a1, a2);
    FlatMapSnoc(ArchiveWritesOf(out), [], None);
    assert [] + bad == bad;
  }

  /** The writes of a folder come between those of the folders around it. */
  lemma BackupWritesAround(out: Path, before: seq<seq<Archive>>, folder: seq<Archive>, after: seq<seq<Archive>>)
    ensures BackupWrites(out, before + [folder] + after)
         == BackupWrites(out, before) + FolderWrites(out, folder) + BackupWrites(out, after)
  {
    BackupWritesConcat(out, before + [folder], after);
    FlatMapSnoc(FolderWritesOf(out), before, folder);
  }

  /** A bad archive anywhere in a folder contributes no write: the run is
      the same as if it were not there, and the archives after it are
      still extracted. */
  lemma BadArchiveSkipped(out: Path, before: seq<seq<Archive>>, a1: seq<Archive>, a2: seq<Archive>,
                          after: seq<seq<Archive>>)
    ensures BackupWrites(out, before + [a1 + [None] + a2] + after)
         == BackupWrites(out, before + [a1 + a2] + after)
  {
    BackupWritesAround(out, before, a1 + [None] + a2, after);
    BackupWritesAround(out, before, a1 + a2, after);
    BadArchiveInFolder(out, a1, a2);
  }

  /** Hence the whole extraction, outcome and filesystem, is unaffected by
      a bad archive. */
  lemma BadArchiveExtraction(rootExists: bool, t: Tree, out: Path, before: seq<seq<Archive>>,
                             a1: seq<Archive>, a2: seq<Archive>, after: seq<seq<Archive>>)
    ensures Extraction(rootExists, t, out, before + [a1 + [None] + a2] + after)
         == Extraction(rootExists, t, out, before + [a1 + a2] + after)
  {
    BadArchiveSkipped(out, before, a1, a2, after);
  }

  // ---------------------------------------------------------------------
  // The whole run

  /** Lines 67-68: preparing the output directory fails exactly when
      nothing exists at its path and a directory above it is a file. When
      it succeeds, the files are untouched, the tree stays well formed, and
      the output path is a directory unless it already was a file. */
  lemma PrepareOutputEffect(t: Tree, out: Path)
    requires WellFormed(t)
    ensures PrepareOutput(t, out).None? <==> !Exists(t, out) && !(Ancestors(out) !! t.files.Keys)
    ensures PrepareOutput(t, out).Some? ==>
              var t1 := PrepareOutput(t, out).value;
              && WellFormed(t1) && t1.files == t.files && t.dirs <= t1.dirs
              && (out in t1.dirs || out in t.files)
  {
    if !Exists(t, out) && AfterMkdir(t, out).Some? {
      MkdirKeepsWellFormed(t, out);
    }
  }

  /** A missing backup root changes nothing. A completed run from a
      well-formed filesystem leaves every destination holding the bytes of
      the last member written to it, in folder, archive and listing order;
      leaves every other file as it was; and every written file's parent
      directory exists. */
  lemma ExtractionEffect(rootExists: bool, t: Tree, out: Path, folders: seq<seq<Archive>>, p: Path)
    requires WellFormed(t)
    ensures !rootExists ==> Extraction(rootExists, t, out, folders) == Final(RootMissing, t)
    ensures var e := Extraction(rootExists, t, out, folders);
            var ws := BackupWrites(out, folders);
            e.outcome.Completed? ==>
              && WellFormed(e.tree)
              && (LastWrite(ws, p).Some? ==> p in e.tree.files && e.tree.files[p] == LastWrite(ws, p).value)
              && (LastWrite(ws, p).None? ==>
                    (p in e.tree.files <==> p in t.files) && (p in t.files ==> e.tree.files[p] == t.files[p]))
              && (p in e.tree.files ==> Parent(p) in e.tree.dirs)
  {
    if rootExists {
      PrepareOutputEffect(t, out);
      var t1 := PrepareOutput(t, out);
      if t1.Some? {
        var ws := BackupWrites(out, folders);
        ReplayKeepsWellFormed(t1.value, ws);
        if Replay(Running(t1.value), ws).Running? {
          LastWriterWins(t1.value, ws, p);
        }
      }
    }
  }

  // ---------------------------------------------------------------------
  // The methods

  /** The run a method leaves behind: still going, or stopped by an
      `OSError` at `failed`. */
  function Ended(failed: Option<Path>, t: Tree): Run
  {
    match failed
    case None => Running(t)
    case Some(p) => Aborted(p, t)
  }

  lemma TakeOneMore<T>(xs: seq<T>, i: int)
    requires 0 <= i < |xs|
    ensures xs[..i + 1] == xs[..i] + [xs[i]]
  {
  }

  /** One more write extends the replay by one step. */
  lemma ReplaySnoc(r: Run, ws: seq<Write>, w: Write)
    ensures Replay(r, ws + [w]) == Step(Replay(r, ws), w)
  {
    assert (ws + [w])[..|ws|] == ws;
  }

  /** The writes of the first `k` elements come first. */
  lemma FlatMapPrefix<A, B>(f: A -> seq<B>, xs: seq<A>, k: int)
    requires 0 <= k <= |xs|
    ensures FlatMap(f, xs[..k]) <= FlatMap(f, xs)
  {
    assert xs == xs[..k] + xs[k..];
    FlatMapConcat(f, xs[..k], xs[k..]);
  }

  /** Replaying the writes of one more element, which makes the single
      write `w`: the run goes on, or ends at `w` for the whole sequence. */
  lemma ReplayOneMore<A>(t0: Tree, f: A -> seq<Write>, xs: seq<A>, i: int, w: Write,
                         before: Tree, after: Tree, ok: bool)
    requires 0 <= i < |xs| && f(xs[i]) == [w]
    requires Replay(Running(t0), FlatMap(f, xs[..i])) == Running(before)
    requires Step(Running(before), w) == if ok then Running(after) else Aborted(w.dest, after)
    ensures ok ==> Replay(Running(t0), FlatMap(f, xs[..i + 1])) == Running(after)
    ensures !ok ==> Replay(Running(t0), FlatMap(f, xs)) == Aborted(w.dest, after)
  {
    TakeOneMore(xs, i);
    FlatMapSnoc(f, xs[..i], xs[i]);
    var done := FlatMap(f, xs[..i]);
    assert FlatMap(f, xs[..i + 1]) == done + [w];
    ReplaySnoc(Running(t0), done, w);
    if !ok {
      FlatMapPrefix(f, xs, i + 1);
      AbortPropagates(Running(t0), FlatMap(f, xs[..i + 1]), FlatMap(f, xs));
    }
  }

  /** The replay of an archive's members after one more member has been
      stored, or has raised `OSError` and so ended the whole archive. */
  lemma MemberStep(t0: Tree, out: Path, ms: seq<Member>, i: int, before: Tree, after: Tree, ok: bool)
    requires 0 <= i < |ms|
    requires Replay(Running(t0), FlatMap(MemberWrite(out, ms), ms[..i])) == Running(before)
    requires AfterStore(before, Destination(out, ms[i].name), OpenRead(ms, ms[i].name))
             == if ok then Done(after) else Raised(after)
    ensures ok ==> Replay(Running(t0), FlatMap(MemberWrite(out, ms), ms[..i + 1])) == Running(after)
    ensures !ok ==> Replay(Running(t0), ArchiveWrites(out, Some(ms))) == Aborted(Destination(out, ms[i].name), after)
  {
    var f := MemberWrite(out, ms);
    var w := Write(Destination(out, ms[i].name), OpenRead(ms, ms[i].name));
    assert f(ms[i]) == [w];
    assert Step(Running(before), w) == if ok then Running(after) else Aborted(w.dest, after);
    ReplayOneMore(t0, f, ms, i, w, before, after, ok);
  }

  /** Lines 39-45 for one member: create the missing parent directory,
      then write the bytes; `ok` is false where either raises `OSError`. */
  method WriteMember(fs: FileSystem, p: Path, content: seq<byte>) returns (ok: bool)
    modifies fs
    ensures AfterStore(old(fs.View()), p, content) == if ok then Done(fs.View()) else Raised(fs.View())
  {
    var q := Parent(p);
    var there := fs.PathExists(q);
    if !there {
      ok := fs.Mkdir(q);
      if !ok {
        return;
      }
    }
    ok := fs.WriteBytes(p, content);
  }

  /** `extract_zip_file`: writes the members of `zip` one by one under
      `out`, in listing order; a bad archive writes nothing. `failed` is
      the destination whose write raised `OSError`, which stops the run. */
  method ExtractZipFile(fs: FileSystem, zip: Archive, out: Path) returns (failed: Option<Path>)
    modifies fs
    ensures Replay(Running(old(fs.View())), ArchiveWrites(out, zip)) == Ended(failed, fs.View())
  {
    failed := None;
    if zip.None? {
      return;
    }
    var ms := zip.value;
    ghost var t0 := fs.View();
    var i := 0;
    while i < |ms|
      invariant 0 <= i <= |ms|
      invariant Replay(Running(t0), FlatMap(MemberWrite(out, ms), ms[..i])) == Running(fs.View())
    {
      var p := Destination(out, ms[i].name);
      ghost var before := fs.View();
      var ok := WriteMember(fs, p, OpenRead(ms, ms[i].name));
      MemberStep(t0, out, ms, i, before, fs.View(), ok);
      if !ok {
        return Some(p);
      }
      i := i + 1;
    }
    assert ms[..i] == ms;
  }

  /** The inner loop of lines 72-74: the archives of one folder, in order. */
  method ExtractFolder(fs: FileSystem, archives: seq<Archive>, out: Path) returns (failed: Option<Path>)
    modifies fs
    ensures Replay(Running(old(fs.View())), FolderWrites(out, archives)) == Ended(failed, fs.View())
  {
    failed := None;
    ghost var t0 := fs.View();
    ghost var f := ArchiveWritesOf(out);
    var k := 0;
    while k < |archives|
      invariant 0 <= k <= |archives|
      invariant Replay(Running(t0), FlatMap(f, archives[..k])) == Running(fs.View())
    {
      ghost var done := FlatMap(f, archives[..k]);
      var bad := ExtractZipFile(fs, archives[k], out);
      TakeOneMore(archives, k);
      FlatMapSnoc(f, archives[..k], archives[k]);
      ReplayConcat(Running(t0), done, ArchiveWrites(out, archives[k]));
      if bad.Some? {
        FlatMapPrefix(f, archives, k + 1);
        AbortPropagates(Running(t0), FlatMap(f, archives[..k + 1]), FlatMap(f, archives));
        return bad;
      }
      k := k + 1;
    }
    assert archives[..k] == archives;
  }

  /** `extract_backup`: returns at once when the backup root is missing,
      creates the output directory when nothing is at its path, then
      extracts every archive of every folder in order. */
  method ExtractBackup(rootExists: bool, fs: FileSystem, out: Path, folders: seq<seq<Archive>>)
    returns (outcome: Outcome)
    modifies fs
    ensures Final(outcome, fs.View()) == Extraction(rootExists, old(fs.View()), out, folders)
  {
    if !rootExists {
      return RootMissing;
    }
    var there := fs.PathExists(out);
    if !there {
      var ok := fs.Mkdir(out);
      if !ok {
        return OsError(out);
      }
    }
    ghost var t1 := fs.View();
    ghost var f := FolderWritesOf(out);
    var i := 0;
    while i < |folders|
      invariant 0 <= i <= |folders|
      invariant Replay(Running(t1), FlatMap(f, folders[..i])) == Running(fs.View())
    {
      ghost var done := FlatMap(f, folders[..i]);
      var failed := ExtractFolder(fs, folders[i], out);
      TakeOneMore(folders, i);
      FlatMapSnoc(f, folders[..i], folders[i]);
      ReplayConcat(Running(t1), done, FolderWrites(out, folders[i]));
      if failed.Some? {
        FlatMapPrefix(f, folders, i + 1);
        AbortPropagates(Running(t1), FlatMap(f, folders[..i + 1]), FlatMap(f, folders));
        return OsError(failed.value);
      }
      i := i + 1;
    }
    assert folders[..i] == folders;
    return Completed;
  }
}
