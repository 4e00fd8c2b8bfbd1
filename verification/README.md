# windows-backup-extractor in Dafny

A model of `extract_backup.py`, the script that rebuilds the folder tree of
a Windows backup set. Such a set has `Backup Files *` folders full of ZIP
archives. The script walks the folders and their `*.zip` archives in order
and writes every archive member to `output_dir / normalized_path`. The
normalised path is the member's stored name with every `C\` removed, every
backslash turned into a slash, and every remaining backslash or percent
sign replaced by an underscore.

The project has five modules:

- `PyString` (pystring.dfy): Python's `str.replace` and `str.count` for a
  non-empty pattern. Both make one left-to-right scan, replace the leftmost
  occurrence and resume after it.
- `Normalizer` (normalizer.dfy): `sanitize_path` (lines 25-29) and the
  `replace` chain of line 37, as pure functions with their properties.
- `PathJoin` (pathjoin.dfy): the POSIX `pathlib` join `output_dir / name` of
  line 38 and `.parent` of line 39. A path is its list of components.
- `FileTree` (filetree.dfy): the filesystem as directories plus files with
  their bytes. It gives `Path.exists`, `mkdir(parents=True)` and
  `open(..., 'wb')` as functions on values, and as methods of a
  `FileSystem` class that updates its fields in place.
- `Extractor` (extractor.dfy): `extract_zip_file` and `extract_backup`, as
  methods with loops over the `FileSystem`. Each is proved equal to a
  specification function that replays the member writes in order. Lemmas
  about that replay give the run's guarantees.

The behaviour follows the code throughout:

- Line 37 removes *every* occurrence of `C\`, in one pass, and not only a
  leading drive prefix: `AC\b` becomes `Ab` and `CC\\` becomes `C/`
  (`Normalizer.EveryDrivePrefixRemoved`, `Normalizer.InteriorExample`,
  `Normalizer.SinglePassExample`).
- Lines 37-38 do not keep destinations inside the output directory. A name
  that starts with a backslash becomes an absolute path, which `pathlib`
  does not place under the output directory
  (`Extractor.LeadingBackslashEscapesOutput`). A relative name keeps `..` as
  a component: `..\x` is written to `output_dir/../x`
  (`Extractor.DotDotEscapesOutput`). For a relative name the model proves
  only that the unresolved destination begins with the output directory's
  components, and that a `..` follows them exactly when the name has a
  `..` component (`Extractor.DestinationBelowOutput`).
- `zip_ref.open(file)` (line 44) looks the member up by name. When
  `namelist()` lists a name twice, both iterations read the bytes of the
  last entry with that name (`Extractor.OpenReadLast`,
  `Extractor.DuplicateNameReadsLast`).
- The `try` of lines 33-47 catches only `BadZipFile`. An `OSError` raised
  by `mkdir` or `open` for a member escapes both functions and ends the
  run. Files written before it stay written (`Extractor.ReplayAborted`,
  outcome `OsError`).

## Model

| member | source | states |
|---|---|---|
| `Normalizer.SanitizePath` | extract_backup.py:25-29 | same length as the input; each `\` or `%` becomes `_` and every other character stays in place |
| `Normalizer.Normalize` | extract_backup.py:37 | the normalised path holds no backslash and no percent sign |
| `Normalizer.NothingToSanitize` | extract_backup.py:28 | a path with no `\` and no `%` is returned unchanged by `sanitize_path` |
| `Normalizer.SanitizeCount` | extract_backup.py:28 | per character: backslashes and percent signs all become underscores; no other count changes |
| `Normalizer.ToForwardSlashesAt` | extract_backup.py:37 | `.replace('\\', '/')` keeps the length and maps each backslash to one slash, other characters in place |
| `Normalizer.NormalizeKeepsCleanPath` | extract_backup.py:37 | a name with no `\` and no `%` is its own normalised path |
| `Normalizer.NormalizeIdempotent` | extract_backup.py:37 | normalising twice equals normalising once |
| `Normalizer.EveryDrivePrefixRemoved` | extract_backup.py:37 | `C\` is removed wherever it stands: text before and after it is stripped independently and joined directly |
| `Normalizer.LeadingDrivePrefix` | extract_backup.py:37 | a leading `C\` is removed |
| `Normalizer.NormalizeLength` | extract_backup.py:37 | length = input length − 2 × the number of `C\` occurrences the single pass removes |
| `Normalizer.StripCharCount` | extract_backup.py:37 | per character: the first replace loses one `C` and one `\` per removed `C\`, nothing else |
| `Normalizer.SlashCharCount` | extract_backup.py:37 | per character: the second replace turns every backslash into a slash, nothing else |
| `Normalizer.NormalizeCharCount` | extract_backup.py:37 | per character: every backslash outside a removed `C\` becomes one `/`, every `%` one `_`, the `C` of each removed `C\` goes; all else is kept |
| `Normalizer.NormalizeWithoutDrivePrefix` | extract_backup.py:37 | without `C\`, normalisation is character by character: `\`→`/`, `%`→`_`, others kept |
| `Normalizer.SlashAt` | extract_backup.py:37 | converting separators around a backslash gives a slash at that point |
| `Normalizer.NoDrivePrefixAcross` | extract_backup.py:37 | a backslash after backslash-free text that does not end in `C` forms no `C\` with it |
| `Normalizer.WindowsPathNormalized` | extract_backup.py:37 | `C\a\b\c` becomes `a/b/c` for any segments without `\` or `%` where `a` and `b` do not end in `C`, as `C\Users\Carl\file.txt` becomes `Users/Carl/file.txt` |
| `Normalizer.SeparatorExample` | extract_backup.py:37 | `a\b\c` becomes `a/b/c` |
| `Normalizer.PercentExample` | extract_backup.py:28 | `10%.txt` becomes `10_.txt` |
| `Normalizer.DotDotNormalized` | extract_backup.py:37 | `..\x` becomes `../x`: `..` survives normalisation |
| `Normalizer.InteriorExample` | extract_backup.py:37 | `AC\b` becomes `Ab` |
| `Normalizer.SinglePassExample` | extract_backup.py:37 | `CC\\` becomes `C/`: a `C\` formed by the removal is not removed again |
| `Normalizer.DrivePrefixJoinsNeighbours` | extract_backup.py:37 | a `C\` between two clean parts disappears with its separator, joining the parts |
| `Normalizer.LeadingBackslashBecomesRoot` | extract_backup.py:37 | a name starting with a backslash normalises to a path starting with `/` |
| `PyString.ReplaceLength` | extract_backup.py:37 | `str.replace` trades `len(pat)` characters for `len(rep)` per counted occurrence |
| `PyString.ReplaceCharCount` | extract_backup.py:37 | per character, each replaced occurrence removes the pattern's characters and adds the replacement's |
| `PyString.CountOneChar` | extract_backup.py:37 | `str.count` of a one-character pattern counts that character |
| `PyString.CountZeroIffAbsent` | extract_backup.py:37 | `str.count` is zero exactly when the pattern does not occur |
| `PyString.ReplaceAbsent` | extract_backup.py:37 | a string without the pattern is returned unchanged |
| `PyString.ReplaceChar` | extract_backup.py:37 | a one-character replace is a character-by-character map |
| `PyString.ReplaceAround` | extract_backup.py:37 | for a pattern that cannot overlap itself, the scan splits at any occurrence |
| `PathJoin.SplitRoundTrip` | extract_backup.py:38 | joining the slash-separated pieces of a name with `/` gives the name back |
| `PathJoin.SplitPieces` | extract_backup.py:38 | no piece holds a slash; every character of a piece comes from the name |
| `PathJoin.ComponentsOf` | extract_backup.py:38 | components are never empty or `.`, hold no slash and use only characters of the name |
| `PathJoin.JoinRelative` | extract_backup.py:38 | a relative name lands below the base, as the name's components |
| `PathJoin.JoinAbsolute` | extract_backup.py:38 | an absolute name gives the same path whatever the base |
| `PathJoin.Parent` | extract_backup.py:39 | the parent drops the last component; the root is its own parent |
| `PathJoin.SplitExample` | extract_backup.py:38 | `a//./b/` splits into `a`, ``, `.`, `b`, `` |
| `PathJoin.ComponentsExample` | extract_backup.py:38 | `a//./b/` has components `a`, `b` |
| `PathJoin.DotDotKept` | extract_backup.py:38 | `../x` keeps `..` as a component |
| `FileTree.MkdirKeepsWellFormed` | extract_backup.py:42 | a successful `mkdir(parents=True)` keeps the filesystem well formed |
| `FileTree.WriteKeepsWellFormed` | extract_backup.py:44-45 | a successful `open(..., 'wb')` and write keeps the filesystem well formed |
| `FileTree.StoreMember` | extract_backup.py:39-45 | storing a member succeeds iff its destination is not a directory and no directory above it is a file; on success the destination holds the bytes, no other file changes, the parent exists and only directories above it are new; on failure nothing changes |
| `FileTree.FileSystem.PathExists` | extract_backup.py:41 | true iff a directory or file is at the path |
| `FileTree.FileSystem.Mkdir` | extract_backup.py:42 | fails where `mkdir(parents=True)` raises; otherwise creates the path and its missing parents |
| `FileTree.FileSystem.WriteBytes` | extract_backup.py:44-45 | fails where `open(p, 'wb')` raises; otherwise the file holds exactly the bytes |
| `Extractor.ReplayConcat` | extract_backup.py:70-74 | replaying writes in two halves equals replaying them all |
| `Extractor.AbortedStays` | extract_backup.py:33-47 | after an escaped `OSError` no later member is written |
| `Extractor.AbortPropagates` | extract_backup.py:33-47 | a run that fails within a prefix of the writes ends exactly there |
| `Extractor.LastWriteIndex` | extract_backup.py:70-74 | the last write to a path is the one with the highest index among writes to it; none exists iff no write goes to it |
| `Extractor.LaterWriteWins` | extract_backup.py:70-74 | across two runs of writes the later one takes precedence for each path |
| `Extractor.OverlayAt` | extract_backup.py:44-45 | after the writes each path holds its last write, or its old content if none |
| `Extractor.ReplayFiles` | extract_backup.py:70-74 | a completed run performs every write, in order, on the files |
| `Extractor.ReplayKeepsWellFormed` | extract_backup.py:41-45 | every run keeps the filesystem well formed and removes no directory |
| `Extractor.ReplayAborted` | extract_backup.py:33-47 | a failed run stops at the first member that cannot be stored, with all earlier members written |
| `Extractor.LastWriterWins` | extract_backup.py:35-45 | after a completed run each destination holds the last member written to it, other paths keep their state, and every file's parent directory exists |
| `Extractor.UntouchedPath` | extract_backup.py:35-45 | a path no member is written to is untouched, even by a failed run |
| `Extractor.OpenReadLast` | extract_backup.py:44 | opening a member by name reads the bytes of the last entry with that name |
| `Extractor.ArchiveWriteAt` | extract_backup.py:35-45 | a good archive gives one write per listed name, in listing order, to the name's normalised destination, with the bytes `open` returns for that name |
| `Extractor.DuplicateNameReadsLast` | extract_backup.py:35-45 | a name listed twice is written twice with the bytes of its last entry |
| `Extractor.DestinationBelowOutput` | extract_backup.py:37-38 | for a relative normalised name, the unresolved destination starts with the output directory's components, then components free of `\`, `%` and `/`; one of them is `..` exactly when the name has a `..` component |
| `Extractor.DotDotEscapesOutput` | extract_backup.py:37-38 | `..\x` is written to `output_dir/../x`, outside the output directory |
| `Extractor.LeadingBackslashEscapesOutput` | extract_backup.py:37-38 | a member whose name starts with a backslash goes to the same path whatever the output directory |
| `Extractor.FolderWritesConcat` | extract_backup.py:72-74 | the writes of two runs of archives follow each other |
| `Extractor.BackupWritesConcat` | extract_backup.py:70-74 | the writes of two runs of folders follow each other |
| `Extractor.BadArchiveInFolder` | extract_backup.py:46-47 | a bad archive contributes no write to its folder |
| `Extractor.BackupWritesAround` | extract_backup.py:70-74 | a folder's writes come between those of the folders before and after it |
| `Extractor.BadArchiveSkipped` | extract_backup.py:46-47 | a bad archive anywhere changes no write; archives after it are still extracted |
| `Extractor.BadArchiveExtraction` | extract_backup.py:70-74 | the outcome and final filesystem of a run are the same with or without a bad archive |
| `Extractor.PrepareOutputEffect` | extract_backup.py:67-68 | preparing the output fails iff nothing is at its path and a directory above it is a file; otherwise files are untouched and the output path is a directory unless it was already a file |
| `Extractor.ExtractionEffect` | extract_backup.py:63-74 | a missing root changes nothing; a completed run leaves each destination with its last member, other files as they were, and every file's parent directory present |
| `Extractor.MemberStep` | extract_backup.py:35-45 | one more member extends the archive's replay, or ends it at that member's destination |
| `Extractor.WriteMember` | extract_backup.py:39-45 | creates the missing parent and writes the member, exactly as the one-member specification does |
| `Extractor.ExtractZipFile` | extract_backup.py:31-47 | the filesystem and failure afterwards are those of replaying the archive's member writes |
| `Extractor.ExtractFolder` | extract_backup.py:72-74 | the filesystem and failure afterwards are those of replaying the folder's archives |
| `Extractor.ExtractBackup` | extract_backup.py:49-76 | outcome and filesystem equal the `Extraction` specification: early return without changes on a missing root, output directory creation, then every archive in order |

Definitions that model the source directly (the lemmas above are about them):

- `PyString.ReplaceAll`, `PyString.Count`: `str.replace` and `str.count`, line 37.
- `Normalizer.StripDrivePrefix`, `Normalizer.ToForwardSlashes`: the two `replace` passes of line 37; `Normalizer.SanitizePath`: lines 25-29; `Normalizer.Normalize`: all of line 37.
- `PathJoin.Split`, `PathJoin.Components`, `PathJoin.Join`: `output_dir / normalized_path`, line 38; `PathJoin.Parent`: `.parent`, line 39.
- `FileTree.Exists`: `Path.exists`, line 41; `FileTree.AfterMkdir`: `mkdir(parents=True)`, line 42; `FileTree.AfterWrite`: `open(file_path, 'wb')` and `write`, lines 44-45; `FileTree.AfterStore`: lines 39-45 for one member.
- `Extractor.Destination`: lines 37-38; `Extractor.OpenRead`: `zip_ref.open(file).read()`, line 44; `Extractor.MemberWrite`, `Extractor.ArchiveWrites`: lines 35-45, with `[]` for a bad archive (lines 46-47).
- `Extractor.FolderWrites`: lines 72-74; `Extractor.BackupWrites`: lines 70-74; `Extractor.Step`, `Extractor.Replay`: performing those writes in order, stopping at an escaped `OSError`.
- `Extractor.PrepareOutput`: lines 67-68; `Extractor.Extraction`: lines 49-76.

## Left out

- The SMB connection of lines 9-23 and the `smb_config` branch of lines 57-58 are not modelled: they call a network client. The backup root and the output directory are parameters.
- Command-line parsing and JSON configuration loading (lines 78-94) are glue and are not modelled.
- ZIP decoding, decompression and CRC checks are library work. An archive is its member list, or `None` when opening raises `BadZipFile`. A `BadZipFile` raised later, while a member is read, is not modelled. Neither are other `zipfile` errors.
- Globbing (lines 70 and 72) is not modelled: the folders and archives arrive as sequences in the order the globs return them. `Path.exists` on the backup root (line 63) is a boolean parameter.
- The folder and archive lists and every archive's members are fixed before the run, apart from the filesystem being written. In the source the globs are lazy and each archive is opened only when the loop reaches it, so a member written (through `..` or an absolute name) onto a folder or a `*.zip` not yet processed would change what is extracted later; the model does not capture that.
- The `print` diagnostics (lines 47, 64, 71, 73, 76) and the process exit status are not modelled.
- Paths are absolute component lists. Resolving a relative output directory against the working directory is not modelled.
- The filesystem keys paths by their text. It does not resolve `..` components the way the operating system does, so a write through `..` lands under a separate key.
- The model follows POSIX `pathlib` on a POSIX host. On Windows, `WindowsPath` joins (drive letters, root-relative paths), case-insensitive names and `zipfile`'s own rewriting of `\` in member names behave differently, and are not modelled.
- `pathlib` keeps a leading `//` as its own root. The model reads it as `/`.
- Only two `OSError` causes are modelled: writing over a directory, and a file or missing directory on the way. Permissions, full disks and symbolic links are not.
- A crash part-way through writing a file is not modelled, so there are no partially written files. A failed step leaves no trace (`FileTree.StoreMember`).
- `PyString.ReplaceAll` is defined only for a non-empty pattern. Line 37 only uses non-empty patterns.
- `extract_backup` runs the archive loop of lines 72-74 inline. The model moves it into its own method, `Extractor.ExtractFolder`, with the same order and effect.
