/**
 * Python's `str.replace(pat, rep)` and `str.count(pat)` for a non-empty
 * pattern: one left-to-right scan that takes the leftmost occurrence,
 * replaces it, and resumes scanning after it, so occurrences never overlap
 * and text produced by a replacement is never scanned again.
 */
module PyString {

  /** `pat` occurs in `s` starting at index `i`. */
  predicate OccursAt(s: string, pat: string, i: int)
  {
    0 <= i && i + |pat| <= |s| && s[i..i + |pat|] == pat
  }

  /** Python's `pat in s`. */
  ghost predicate Contains(s: string, pat: string)
  {
    exists i :: OccursAt(s, pat, i)
  }

  /** The first character of `pat` does not occur again in it, so two
      occurrences of `pat` can never overlap. */
  predicate HeadUnique(pat: string)
    requires pat != []
  {
    pat[0] !in pat[1..]
  }

  /** `s.replace(pat, rep)` */
  function ReplaceAll(s: string, pat: string, rep: string): string
    requires pat != []
    decreases |s|
  {
    if |s| < |pat| then s
    else if s[..|pat|] == pat then rep + ReplaceAll(s[|pat|..], pat, rep)
    else [s[0]] + ReplaceAll(s[1..], pat, rep)
  }

  /** `s.count(pat)`: the number of occurrences `ReplaceAll` replaces. */
  function Count(s: string, pat: string): nat
    requires pat != []
    decreases |s|
  {
    if |s| < |pat| then 0
    else if s[..|pat|] == pat then 1 + Count(s[|pat|..], pat)
    else Count(s[1..], pat)
  }

  lemma Distribute(n: int, k: int)
    ensures (n + 1) * k == n * k + k
  {
  }

  /** Each replaced occurrence trades |pat| characters for |rep|. */
  lemma {:induction false} ReplaceLength(s: string, pat: string, rep: string)
    requires pat != []
    ensures |ReplaceAll(s, pat, rep)| == |s| + Count(s, pat) * |rep| - Count(s, pat) * |pat|
    decreases |s|
  {
    if |s| < |pat| {
    } else if s[..|pat|] == pat {
      var tail := s[|pat|..];
      ReplaceLength(tail, pat, rep);
      var n := Count(tail, pat);
      assert ReplaceAll(s, pat, rep) == rep + ReplaceAll(tail, pat, rep);
      assert Count(s, pat) == n + 1;
      Distribute(n, |rep|);
      Distribute(n, |pat|);
    } else {
      ReplaceLength(s[1..], pat, rep);
    }
  }

  /** The count identity of `ReplaceCharCount` survives one more replaced
      occurrence. */
  lemma CountOneMore(x: int, y: int, n: int, k: int, m: int)
    requires x == y + n * k - n * m
    ensures k + x == (m + y) + (n + 1) * k - (n + 1) * m
  {
    Distribute(n, k);
    Distribute(n, m);
  }

  /** Per character: each replaced occurrence removes the characters of
      `pat` and adds those of `rep`; nothing else is added or lost. */
  lemma {:induction false} ReplaceCharCount(s: string, pat: string, rep: string, c: char)
    requires pat != []
    ensures multiset(ReplaceAll(s, pat, rep))[c]
         == multiset(s)[c] + Count(s, pat) * multiset(rep)[c] - Count(s, pat) * multiset(pat)[c]
    decreases |s|, 1
  {
    if |s| < |pat| {
    } else if s[..|pat|] == pat {
      ReplaceCharCountMatch(s, pat, rep, c);
    } else {
      ReplaceCharCountSkip(s, pat, rep, c);
    }
  }

  /** `ReplaceCharCount` when an occurrence starts at the front of `s`. */
  lemma {:induction false} ReplaceCharCountMatch(s: string, pat: string, rep: string, c: char)
    requires pat != [] && |s| >= |pat| && s[..|pat|] == pat
    ensures multiset(ReplaceAll(s, pat, rep))[c]
         == multiset(s)[c] + Count(s, pat) * multiset(rep)[c] - Count(s, pat) * multiset(pat)[c]
    decreases |s|, 0
  {
    var tail := s[|pat|..];
    var r := ReplaceAll(tail, pat, rep);
    ReplaceCharCount(tail, pat, rep, c);
    assert s == pat + tail;
    assert ReplaceAll(s, pat, rep) == rep + r;
    assert multiset(s)[c] == multiset(pat)[c] + multiset(tail)[c];
    assert multiset(rep + r)[c] == multiset(rep)[c] + multiset(r)[c];
    CountOneMore(multiset(r)[c], multiset(tail)[c], Count(tail, pat), multiset(rep)[c], multiset(pat)[c]);
  }

  /** `ReplaceCharCount` when no occurrence starts at the front of `s`. */
  lemma {:induction false} ReplaceCharCountSkip(s: string, pat: string, rep: string, c: char)
    requires pat != [] && |s| >= |pat| && s[..|pat|] != pat
    ensures multiset(ReplaceAll(s, pat, rep))[c]
         == multiset(s)[c] + Count(s, pat) * multiset(rep)[c] - Count(s, pat) * multiset(pat)[c]
    decreases |s|, 0
  {
    var r := ReplaceAll(s[1..], pat, rep);
    ReplaceCharCount(s[1..], pat, rep, c);
    assert s == [s[0]] + s[1..];
    assert ReplaceAll(s, pat, rep) == [s[0]] + r;
  }

  /** A pattern whose first character is missing from `s` does not occur in it. */
  lemma FirstCharAbsent(s: string, pat: string)
    requires pat != [] && pat[0] !in s
    ensures !Contains(s, pat)
  {
    forall i | 0 <= i < |s| ensures !OccursAt(s, pat, i) {
      if i + |pat| <= |s| {
        assert s[i..i + |pat|][0] == s[i];
      }
    }
  }

  /** For a one-character pattern, `str.count` counts that character. */
  lemma {:induction false} CountOneChar(s: string, c: char)
    ensures Count(s, [c]) == multiset(s)[c]
    decreases |s|
  {
    if s != [] {
      CountOneChar(s[1..], c);
      assert s == [s[0]] + s[1..];
      assert s[..1] == [s[0]];
    }
  }

  /** An occurrence at index i >= 1 of `s` is one at i - 1 of `s[1..]`. */
  lemma OccursInTail(s: string, pat: string, i: int)
    requires 1 <= i && OccursAt(s, pat, i)
    ensures OccursAt(s[1..], pat, i - 1)
  {
    assert s[1..][i - 1..i - 1 + |pat|] == s[i..i + |pat|];
  }

  /** An occurrence at index i of `s[1..]` is one at i + 1 of `s`. */
  lemma OccursInWhole(s: string, pat: string, i: int)
    requires s != [] && OccursAt(s[1..], pat, i)
    ensures OccursAt(s, pat, i + 1)
  {
    assert s[i + 1..i + 1 + |pat|] == s[1..][i..i + |pat|];
  }

  /** `str.count` is zero exactly when the pattern does not occur at all:
      the scan misses no occurrence. */
  lemma {:induction false} CountZeroIffAbsent(s: string, pat: string)
    requires pat != []
    ensures Count(s, pat) == 0 <==> !Contains(s, pat)
    decreases |s|
  {
    if |s| < |pat| {
      assert forall i :: !OccursAt(s, pat, i);
    } else if s[..|pat|] == pat {
      assert OccursAt(s, pat, 0);
    } else {
      CountZeroIffAbsent(s[1..], pat);
      if Contains(s, pat) {
        var i :| OccursAt(s, pat, i);
        assert i != 0;
        OccursInTail(s, pat, i);
      } else {
        forall i | OccursAt(s[1..], pat, i) ensures OccursAt(s, pat, i + 1) {
          OccursInWhole(s, pat, i);
        }
      }
    }
  }

  /** A string in which the pattern does not occur is returned unchanged. */
  lemma {:induction false} ReplaceAbsent(s: string, pat: string, rep: string)
    requires pat != [] && !Contains(s, pat)
    ensures ReplaceAll(s, pat, rep) == s
    decreases |s|
  {
    if |s| >= |pat| {
      forall i | OccursAt(s[1..], pat, i) ensures OccursAt(s, pat, i + 1) {
        OccursInWhole(s, pat, i);
      }
      ReplaceAbsent(s[1..], pat, rep);
      assert !OccursAt(s, pat, 0);
      assert s == [s[0]] + s[1..];
    }
  }

  /** With a one-character pattern and replacement the result is a
      character-by-character map of the input. */
  lemma {:induction false} ReplaceChar(s: string, from: char, to: char)
    ensures |ReplaceAll(s, [from], [to])| == |s|
    ensures forall i :: 0 <= i < |s| ==>
              ReplaceAll(s, [from], [to])[i] == (if s[i] == from then to else s[i])
    decreases |s|
  {
    if s != [] {
      ReplaceChar(s[1..], from, to);
      var r := ReplaceAll(s, [from], [to]);
      assert s[..1] == [s[0]];
      assert r == [if s[0] == from then to else s[0]] + ReplaceAll(s[1..], [from], [to]);
    }
  }

  /** An occurrence of such a pattern cannot start inside a shorter prefix
      `u` and run into a following copy of the pattern. */
  lemma NoStraddle(u: string, pat: string, v: string)
    requires pat != [] && HeadUnique(pat) && 0 < |u| < |pat|
    ensures (u + pat + v)[..|pat|] != pat
  {
    assert (u + pat + v)[..|pat|][|u|] == pat[0];
    assert pat[|u|] in pat[1..];
  }

  /** One step of the scan where no occurrence starts at the front. */
  lemma ReplaceSkip(s: string, pat: string, rep: string)
    requires pat != [] && s != [] && !(|s| >= |pat| && s[..|pat|] == pat)
    ensures ReplaceAll(s, pat, rep) == [s[0]] + ReplaceAll(s[1..], pat, rep)
  {
    if |s| < |pat| {
      assert s == [s[0]] + s[1..];
    }
  }

  /** For a pattern that cannot overlap itself, the scan splits at every
      occurrence, wherever it stands: what precedes it and what follows it
      are rewritten independently. */
  lemma {:induction false} ReplaceAround(u: string, pat: string, rep: string, v: string)
    requires pat != [] && HeadUnique(pat)
    ensures ReplaceAll(u + pat + v, pat, rep) == ReplaceAll(u, pat, rep) + rep + ReplaceAll(v, pat, rep)
    decreases |u|, 1
  {
    if u == [] {
      var w := u + pat + v;
      assert w[..|pat|] == pat && w[|pat|..] == v;
    } else if |u| < |pat| || u[..|pat|] != pat {
      ReplaceAroundSkip(u, pat, rep, v);
    } else {
      ReplaceAroundMatch(u, pat, rep, v);
    }
  }

  /** `ReplaceAround` when no occurrence starts at the front of `u`. */
  lemma {:induction false} ReplaceAroundSkip(u: string, pat: string, rep: string, v: string)
    requires pat != [] && HeadUnique(pat) && u != [] && (|u| < |pat| || u[..|pat|] != pat)
    ensures ReplaceAll(u + pat + v, pat, rep) == ReplaceAll(u, pat, rep) + rep + ReplaceAll(v, pat, rep)
    decreases |u|, 0
  {
    var w := u + pat + v;
    if |u| < |pat| {
      NoStraddle(u, pat, v);
    } else {
      assert w[..|pat|] == u[..|pat|];
    }
    assert w[1..] == u[1..] + pat + v;
    ReplaceSkip(w, pat, rep);
    ReplaceSkip(u, pat, rep);
    ReplaceAround(u[1..], pat, rep, v);
  }

  /** `ReplaceAround` when an occurrence starts at the front of `u`. */
  lemma {:induction false} ReplaceAroundMatch(u: string, pat: string, rep: string, v: string)
    requires pat != [] && HeadUnique(pat) && |u| >= |pat| && u[..|pat|] == pat
    ensures ReplaceAll(u + pat + v, pat, rep) == ReplaceAll(u, pat, rep) + rep + ReplaceAll(v, pat, rep)
    decreases |u|, 0
  {
    var w := u + pat + v;
    assert w[..|pat|] == pat;
    assert w[|pat|..] == u[|pat|..] + pat + v;
    ReplaceAround(u[|pat|..], pat, rep, v);
  }
}
