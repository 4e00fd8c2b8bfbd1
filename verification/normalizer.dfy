/**
 * The archive-member path normaliser of extract_backup.py: the expression
 * `sanitize_path(file.replace('C\\', '').replace('\\', '/'))` at line 37
 * and `sanitize_path` (lines 25-29), which is `re.sub(r'[\\%]', '_', path)`.
 */
module Normalizer {
  import opened PyString

  /** The two-character text `C\` removed by the first `replace`. */
  const DRIVE_PREFIX: string := "C\\"

  /** `path.replace('C\\', '')`: every occurrence, in one left-to-right pass. */
  function StripDrivePrefix(path: string): string
  {
    ReplaceAll(path, DRIVE_PREFIX, "")
  }

  /** `path.replace('\\', '/')` */
  function ToForwardSlashes(path: string): string
  {
    ReplaceAll(path, "\\", "/")
  }

  /** `sanitize_path`: each backslash or percent sign becomes an underscore;
      every other character is kept in place. */
  function SanitizePath(path: string): (r: string)
    ensures |r| == |path|
    ensures forall i :: 0 <= i < |path| ==>
              r[i] == (if path[i] == '\\' || path[i] == '%' then '_' else path[i])
  {
    if path == [] then []
    else [if path[0] == '\\' || path[0] == '%' then '_' else path[0]] + SanitizePath(path[1..])
  }

  /** The normalised relative path a member named `name` is written to. */
  function Normalize(name: string): (r: string)
    ensures '\\' !in r && '%' !in r
  {
    SanitizePath(ToForwardSlashes(StripDrivePrefix(name)))
  }

  lemma DrivePrefixHeadUnique()
    ensures HeadUnique(DRIVE_PREFIX)
  {
    assert DRIVE_PREFIX[1..] == "\\";
  }

  /** A `C\` occurrence contains a backslash. */
  lemma NoBackslashNoDrivePrefix(s: string)
    requires '\\' !in s
    ensures !Contains(s, DRIVE_PREFIX)
  {
    forall i | 0 <= i < |s| ensures !OccursAt(s, DRIVE_PREFIX, i) {
      if i + 2 <= |s| {
        assert s[i..i + 2][1] == s[i + 1];
      }
    }
  }

  /** Converting separators changes each backslash into exactly one slash
      and keeps every other character in place. */
  lemma ToForwardSlashesAt(s: string)
    ensures |ToForwardSlashes(s)| == |s|
    ensures forall i :: 0 <= i < |s| ==>
              ToForwardSlashes(s)[i] == (if s[i] == '\\' then '/' else s[i])
  {
    ReplaceChar(s, '\\', '/');
  }

  /** Text without a backslash is left alone by `ToForwardSlashes`. */
  lemma NoBackslashKept(s: string)
    requires '\\' !in s
    ensures ToForwardSlashes(s) == s
  {
    FirstCharAbsent(s, "\\");
    ReplaceAbsent(s, "\\", "/");
  }

  /** Text without a backslash or percent sign is left alone by `SanitizePath`. */
  lemma NothingToSanitize(s: string)
    requires '\\' !in s && '%' !in s
    ensures SanitizePath(s) == s
  {
  }

  /** A path with no backslash and no percent sign is already normal. */
  lemma NormalizeKeepsCleanPath(s: string)
    requires '\\' !in s && '%' !in s
    ensures Normalize(s) == s
  {
    NoBackslashNoDrivePrefix(s);
    ReplaceAbsent(s, DRIVE_PREFIX, "");
    NoBackslashKept(s);
    NothingToSanitize(s);
  }

  /** Normalising twice is the same as normalising once. */
  lemma NormalizeIdempotent(s: string)
    ensures Normalize(Normalize(s)) == Normalize(s)
  {
    NormalizeKeepsCleanPath(Normalize(s));
  }

  /** `C\` is removed wherever it stands, not only at the front: the text
      before and the text after it are normalised independently and joined
      with nothing in between. */
  lemma EveryDrivePrefixRemoved(u: string, v: string)
    ensures StripDrivePrefix(u + DRIVE_PREFIX + v) == StripDrivePrefix(u) + StripDrivePrefix(v)
  {
    DrivePrefixHeadUnique();
    ReplaceAround(u, DRIVE_PREFIX, "", v);
  }

  /** Only the removal of `C\` changes the length: two characters for each
      occurrence the single pass removes. */
  lemma NormalizeLength(s: string)
    ensures |Normalize(s)| == |s| - 2 * Count(s, DRIVE_PREFIX)
  {
    ReplaceLength(s, DRIVE_PREFIX, "");
    ToForwardSlashesAt(StripDrivePrefix(s));
  }

  /** Per character, `SanitizePath` moves every backslash and percent sign
      to the underscores and leaves all other counts alone. */
  lemma SanitizeCount(t: string, c: char)
    ensures multiset(SanitizePath(t))[c]
         == if c == '_' then multiset(t)['_'] + multiset(t)['\\'] + multiset(t)['%']
            else if c == '\\' || c == '%' then 0
            else multiset(t)[c]
  {
    if c == '_' {
      SanitizeUnderscores(t);
    } else {
      SanitizeOthers(t, c);
    }
  }

  lemma {:induction false} SanitizeUnderscores(t: string)
    ensures multiset(SanitizePath(t))['_'] == multiset(t)['_'] + multiset(t)['\\'] + multiset(t)['%']
    decreases |t|
  {
    if t != [] {
      var h := if t[0] == '\\' || t[0] == '%' then '_' else t[0];
      SanitizeUnderscores(t[1..]);
      assert t == [t[0]] + t[1..];
      assert SanitizePath(t) == [h] + SanitizePath(t[1..]);
    }
  }

  lemma {:induction false} SanitizeOthers(t: string, c: char)
    requires c != '_'
    ensures multiset(SanitizePath(t))[c] == if c == '\\' || c == '%' then 0 else multiset(t)[c]
    decreases |t|
  {
    if t != [] {
      var h := if t[0] == '\\' || t[0] == '%' then '_' else t[0];
      SanitizeOthers(t[1..], c);
      assert t == [t[0]] + t[1..];
      assert SanitizePath(t) == [h] + SanitizePath(t[1..]);
    }
  }

  lemma TimesBit(n: int, k: int)
    requires k == 0 || k == 1
    ensures n * k == if k == 1 then n else 0
  {
  }

  lemma DrivePrefixChars(c: char)
    ensures multiset(DRIVE_PREFIX)[c] == if c == 'C' || c == '\\' then 1 else 0
  {
    assert DRIVE_PREFIX == ['C'] + ['\\'];
  }

  /** Per character, the first `replace` removes one `C` and one backslash
      for every occurrence of `C\` it removes, and nothing else. */
  lemma StripCharCount(s: string, c: char)
    ensures multiset(StripDrivePrefix(s))[c]
         == if c == 'C' || c == '\\' then multiset(s)[c] - Count(s, DRIVE_PREFIX) else multiset(s)[c]
  {
    var n := Count(s, DRIVE_PREFIX);
    ReplaceCharCount(s, DRIVE_PREFIX, "", c);
    assert multiset("")[c] == 0;
    TimesBit(n, multiset("")[c]);
    DrivePrefixChars(c);
    TimesBit(n, multiset(DRIVE_PREFIX)[c]);
  }

  /** Per character, the second `replace` turns every backslash into a slash. */
  lemma SlashCharCount(t: string, c: char)
    ensures multiset(ToForwardSlashes(t))[c]
         == if c == '/' then multiset(t)['/'] + multiset(t)['\\']
            else if c == '\\' then 0
            else multiset(t)[c]
  {
    var n := Count(t, "\\");
    ReplaceCharCount(t, "\\", "/", c);
    CountOneChar(t, '\\');
    assert multiset("\\")[c] == if c == '\\' then 1 else 0;
    assert multiset("/")[c] == if c == '/' then 1 else 0;
    TimesBit(n, multiset("\\")[c]);
    TimesBit(n, multiset("/")[c]);
  }

  /** Every backslash that is not part of a removed `C\` becomes exactly one
      slash, every percent sign one underscore, and the `C` of every removed
      `C\` disappears; no other character is added or lost. */
  lemma NormalizeCharCount(s: string, c: char)
    ensures multiset(Normalize(s))[c]
         == if c == '/' then multiset(s)['/'] + multiset(s)['\\'] - Count(s, DRIVE_PREFIX)
            else if c == '_' then multiset(s)['_'] + multiset(s)['%']
            else if c == 'C' then multiset(s)['C'] - Count(s, DRIVE_PREFIX)
            else if c == '\\' || c == '%' then 0
            else multiset(s)[c]
  {
    var t := StripDrivePrefix(s);
    var u := ToForwardSlashes(t);
    StripCharCount(s, c);
    StripCharCount(s, '\\');
    StripCharCount(s, '/');
    StripCharCount(s, '%');
    StripCharCount(s, '_');
    SlashCharCount(t, c);
    SlashCharCount(t, '\\');
    SlashCharCount(t, '%');
    SlashCharCount(t, '_');
    SanitizeCount(u, c);
  }

  /** A leading `C\` is removed. */
  lemma LeadingDrivePrefix(rest: string)
    ensures Normalize(DRIVE_PREFIX + rest) == Normalize(rest)
  {
    EveryDrivePrefixRemoved("", rest);
    assert "" + DRIVE_PREFIX + rest == DRIVE_PREFIX + rest;
    assert StripDrivePrefix("") + StripDrivePrefix(rest) == StripDrivePrefix(rest);
  }

  /** Where `C\` does not occur, normalisation works character by character:
      a backslash becomes a slash, a percent sign an underscore, and every
      other character is kept in place. */
  lemma NormalizeWithoutDrivePrefix(s: string)
    requires !Contains(s, DRIVE_PREFIX)
    ensures |Normalize(s)| == |s|
    ensures forall i :: 0 <= i < |s| ==>
              Normalize(s)[i] == (if s[i] == '\\' then '/' else if s[i] == '%' then '_' else s[i])
  {
    ReplaceAbsent(s, DRIVE_PREFIX, "");
    ToForwardSlashesAt(s);
  }

  /** Converting separators around one backslash. */
  lemma SlashAt(u: string, v: string)
    requires '\\' !in u
    ensures ToForwardSlashes(u + "\\" + v) == u + "/" + ToForwardSlashes(v)
  {
    ReplaceAround(u, "\\", "/", v);
    NoBackslashKept(u);
  }

  /** Text with no backslash and no percent sign. */
  predicate Plain(s: string)
  {
    '\\' !in s && '%' !in s
  }

  /** Text that can precede a backslash without forming `C\` with it. */
  predicate NoTrailingC(s: string)
  {
    s == [] || s[|s| - 1] != 'C'
  }

  /** A backslash after backslash-free text that does not end in `C` starts
      no `C\`, so no occurrence spans the joint. */
  lemma NoDrivePrefixAcross(u: string, v: string)
    requires '\\' !in u && NoTrailingC(u) && !Contains(v, DRIVE_PREFIX)
    ensures !Contains(u + "\\" + v, DRIVE_PREFIX)
  {
    var w := u + "\\" + v;
    forall i | 0 <= i < |w| ensures !OccursAt(w, DRIVE_PREFIX, i) {
      if i + 2 <= |w| {
        assert w[i..i + 2][0] == w[i] && w[i..i + 2][1] == w[i + 1];
        if i + 1 < |u| {
          assert w[i + 1] == u[i + 1];
        } else if i + 1 == |u| {
          assert w[i] == u[|u| - 1];
        } else if i == |u| {
          assert w[i] == '\\';
        } else {
          assert w[i..i + 2] == v[i - |u| - 1..i - |u| + 1];
          assert !OccursAt(v, DRIVE_PREFIX, i - |u| - 1);
        }
      }
    }
  }

  /** A member stored as `C\a\b\c` is written to `a/b/c` whenever the
      segments hold no backslash or percent sign and `a` and `b` do not end
      in `C`, as `C\Users\Carl\file.txt` is written to
      `Users/Carl/file.txt`. */
  lemma WindowsPathNormalized(a: string, b: string, c: string)
    requires Plain(a) && Plain(b) && Plain(c)
    requires NoTrailingC(a) && NoTrailingC(b)
    ensures Normalize(DRIVE_PREFIX + a + "\\" + b + "\\" + c) == a + "/" + b + "/" + c
  {
    var rest := a + "\\" + (b + "\\" + c);
    assert DRIVE_PREFIX + a + "\\" + b + "\\" + c == DRIVE_PREFIX + rest;
    LeadingDrivePrefix(rest);
    SegmentsStripped(a, b, c);
    SegmentsSlashed(a, b, c);
    assert a + "/" + (b + "/" + c) == a + "/" + b + "/" + c;
    NothingToSanitize(a + "/" + b + "/" + c);
  }

  lemma SegmentsStripped(a: string, b: string, c: string)
    requires Plain(a) && Plain(b) && Plain(c)
    requires NoTrailingC(a) && NoTrailingC(b)
    ensures StripDrivePrefix(a + "\\" + (b + "\\" + c)) == a + "\\" + (b + "\\" + c)
  {
    NoBackslashNoDrivePrefix(c);
    NoDrivePrefixAcross(b, c);
    NoDrivePrefixAcross(a, b + "\\" + c);
    ReplaceAbsent(a + "\\" + (b + "\\" + c), DRIVE_PREFIX, "");
  }

  lemma SegmentsSlashed(a: string, b: string, c: string)
    requires Plain(a) && Plain(b) && Plain(c)
    ensures ToForwardSlashes(a + "\\" + (b + "\\" + c)) == a + "/" + (b + "/" + c)
  {
    SlashAt(a, b + "\\" + c);
    SlashAt(b, c);
    NoBackslashKept(c);
  }

  // Worked examples. Each takes its input as a parameter fixed by its
  // precondition, which keeps the verifier from unfolding the definitions
  // over the literal text.

  /** Backslash separators become slashes. */
  lemma SeparatorExample(name: string)
    requires name == "a\\b\\c"
    ensures Normalize(name) == "a/b/c"
  {
    FirstCharAbsent(name, DRIVE_PREFIX);
    NormalizeWithoutDrivePrefix(name);
  }

  /** A percent sign between two clean parts becomes an underscore. */
  lemma PercentAt(u: string, v: string)
    requires '\\' !in u && '%' !in u && '\\' !in v && '%' !in v
    ensures Normalize(u + "%" + v) == u + "_" + v
  {
    var s := u + "%" + v;
    NoBackslashNoDrivePrefix(s);
    ReplaceAbsent(s, DRIVE_PREFIX, "");
    NoBackslashKept(s);
    var r := SanitizePath(s);
    assert r[..|u|] == u;
    assert r[|u| + 1..] == v;
    assert r == r[..|u|] + [r[|u|]] + r[|u| + 1..];
  }

  /** A percent sign becomes an underscore. */
  lemma PercentExample(name: string)
    requires name == "10%.txt"
    ensures Normalize(name) == "10_.txt"
  {
    assert name == "10" + "%" + ".txt";
    PercentAt("10", ".txt");
  }

  /** `..` survives normalisation: `..\\x` becomes `../x`. */
  lemma DotDotNormalized(name: string)
    requires name == "..\\x"
    ensures Normalize(name) == "../x"
  {
    assert name == ".." + "\\" + "x";
    FirstCharAbsent(name, DRIVE_PREFIX);
    ReplaceAbsent(name, DRIVE_PREFIX, "");
    SlashAt("..", "x");
    NoBackslashKept("x");
    assert ".." + "/" + "x" == "../x";
    NothingToSanitize("../x");
  }

  /** A `C\` in the middle of a name is removed too. */
  lemma InteriorExample(name: string)
    requires name == "AC\\b"
    ensures Normalize(name) == "Ab"
  {
    assert name == "A" + DRIVE_PREFIX + "b";
    EveryDrivePrefixRemoved("A", "b");
    NormalizeKeepsCleanPath("Ab");
  }

  /** A `C\` formed by the removal itself is not removed again. */
  lemma SinglePassExample(name: string)
    requires name == "CC\\\\"
    ensures Normalize(name) == "C/"
  {
    assert name == "C" + DRIVE_PREFIX + "\\";
    EveryDrivePrefixRemoved("C", "\\");
    ToForwardSlashesAt("C\\");
  }

  /** Between two parts free of backslashes and percent signs, `C\` is
      removed together with the separator it contains, so the two parts are
      joined directly. */
  lemma DrivePrefixJoinsNeighbours(u: string, v: string)
    requires '\\' !in u && '%' !in u && '\\' !in v && '%' !in v
    ensures Normalize(u + DRIVE_PREFIX + v) == u + v
  {
    EveryDrivePrefixRemoved(u, v);
    NoBackslashNoDrivePrefix(u);
    ReplaceAbsent(u, DRIVE_PREFIX, "");
    NoBackslashNoDrivePrefix(v);
    ReplaceAbsent(v, DRIVE_PREFIX, "");
    NormalizeKeepsCleanPath(u + v);
    assert StripDrivePrefix(u + v) == u + v by {
      NoBackslashNoDrivePrefix(u + v);
      ReplaceAbsent(u + v, DRIVE_PREFIX, "");
    }
  }

  /** A name that starts with a backslash normalises to a path that starts
      with a slash, which `pathlib` reads as absolute. */
  lemma LeadingBackslashBecomesRoot(name: string)
    requires name != [] && name[0] == '\\'
    ensures Normalize(name) != [] && Normalize(name)[0] == '/'
  {
    assert !(|name| >= 2 && name[..2] == DRIVE_PREFIX) by {
      if |name| >= 2 {
        assert name[..2][0] == '\\';
      }
    }
    ReplaceSkip(name, DRIVE_PREFIX, "");
    var t := StripDrivePrefix(name);
    assert t[0] == '\\' && t[..1] == "\\";
    ToForwardSlashesAt(t);
  }
}
