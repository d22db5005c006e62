/**
 * Character classes and string operations used by the extraction engine and
 * the page patcher: ASCII digits and whitespace, case mapping, substring
 * search, first-occurrence search and Python's `str.replace`.
 */
module Strings {
  import opened Wrappers

  /** `\d` restricted to ASCII. */
  predicate IsDigit(c: char) {
    '0' <= c <= '9'
  }

  /** The ASCII characters for which Python's `str.isspace()` holds. */
  predicate IsSpace(c: char) {
    c == ' ' || '\t' <= c <= '\r' || '\U{1C}' <= c <= '\U{1F}'
  }

  /** `s.strip() == ''`: the text holds nothing but whitespace. */
  predicate IsBlank(s: string) {
    forall i | 0 <= i < |s| :: IsSpace(s[i])
  }

  function LowerChar(c: char): char {
    if 'A' <= c <= 'Z' then (c as int + 32) as char else c
  }

  function UpperChar(c: char): char {
    if 'a' <= c <= 'z' then (c as int - 32) as char else c
  }

  /** `s.lower()` on ASCII text. */
  function Lower(s: string): (r: string)
    ensures |r| == |s|
    ensures forall i | 0 <= i < |s| :: r[i] == LowerChar(s[i])
  {
    seq(|s|, i requires 0 <= i < |s| => LowerChar(s[i]))
  }

  /** `s.upper()` on ASCII text. */
  function Upper(s: string): (r: string)
    ensures |r| == |s|
    ensures forall i | 0 <= i < |s| :: r[i] == UpperChar(s[i])
  {
    seq(|s|, i requires 0 <= i < |s| => UpperChar(s[i]))
  }

  /** `pat` occurs in `s` starting at index `i`. */
  predicate OccursAt(s: string, pat: string, i: nat) {
    i + |pat| <= |s| && s[i..i + |pat|] == pat
  }

  /** Python's `pat in s`. */
  predicate Contains(s: string, pat: string) {
    exists i | 0 <= i <= |s| :: OccursAt(s, pat, i)
  }

  /** The first index at or after `from` where `pat` occurs in `s` (`s.find(pat, from)`). */
  function FindFrom(s: string, pat: string, from: nat): (r: Option<nat>)
    decreases |s| - from
    ensures r.Some? ==> from <= r.value && OccursAt(s, pat, r.value)
    ensures r.Some? ==> forall j | from <= j < r.value :: !OccursAt(s, pat, j)
    ensures r.None? ==> forall j | from <= j :: !OccursAt(s, pat, j)
  {
    if from + |pat| > |s| then None
    else if s[from..from + |pat|] == pat then Some(from)
    else FindFrom(s, pat, from + 1)
  }

  /** The first occurrence at or after `from` is the one at `v`. */
  lemma FindFromIs(s: string, pat: string, from: nat, v: nat)
    requires from <= v && OccursAt(s, pat, v)
    requires forall j | from <= j < v :: !OccursAt(s, pat, j)
    ensures FindFrom(s, pat, from) == Some(v)
  {
    match FindFrom(s, pat, from)
    case None =>
    case Some(w) =>
  }

  /**
   * Python's `s.replace(pat, rep)` for a non-empty `pat`: occurrences are
   * replaced left to right and never overlap.
   */
  function Replace(s: string, pat: string, rep: string): (r: string)
    requires |pat| > 0
    ensures |rep| == |pat| ==> |r| == |s|
    ensures |rep| >= |pat| ==> |r| >= |s|
  {
    if |pat| <= |s| && s[..|pat|] == pat then rep + Replace(s[|pat|..], pat, rep)
    else if s == [] then []
    else [s[0]] + Replace(s[1..], pat, rep)
  }

  lemma OccursInConcat(a: string, b: string, pat: string, i: nat)
    requires OccursAt(b, pat, i)
    ensures OccursAt(a + b, pat, |a| + i)
  {
    assert (a + b)[|a| + i..|a| + i + |pat|] == b[i..i + |pat|];
  }

  lemma OccursInPrefix(a: string, b: string, pat: string, i: nat)
    requires OccursAt(a, pat, i)
    ensures OccursAt(a + b, pat, i)
  {
    assert (a + b)[i..i + |pat|] == a[i..i + |pat|];
  }

  lemma CharAt(s: string, pat: string, i: nat, k: nat)
    requires OccursAt(s, pat, i) && k < |pat|
    ensures s[i + k] == pat[k]
  {
    assert s[i + k] == s[i..i + |pat|][k];
  }

  /** An occurrence of `pat` inside an occurrence of `mid` is an occurrence in the whole. */
  lemma ContainsTransitive(s: string, mid: string, pat: string)
    requires Contains(s, mid) && Contains(mid, pat)
    ensures Contains(s, pat)
  {
    var i :| 0 <= i <= |s| && OccursAt(s, mid, i);
    var j :| 0 <= j <= |mid| && OccursAt(mid, pat, j);
    forall k | 0 <= k < |pat| ensures s[i + j + k] == pat[k] {
      assert s[i + j + k] == s[i..i + |mid|][j + k] == mid[j + k];
      assert mid[j + k] == mid[j..j + |pat|][k];
    }
    assert s[i + j..i + j + |pat|] == pat;
    assert OccursAt(s, pat, i + j);
  }

  /** A character of `pat` that `s` lacks rules out every occurrence of `pat` in `s`. */
  lemma MissingCharExcludes(s: string, pat: string, k: nat)
    requires k < |pat|
    requires forall i | 0 <= i < |s| :: s[i] != pat[k]
    ensures !Contains(s, pat)
  {
    forall i | 0 <= i <= |s|
      ensures !OccursAt(s, pat, i)
    {
      if i + |pat| <= |s| {
        assert s[i..i + |pat|][k] == s[i + k] != pat[k];
      }
    }
  }

  /** Each occurrence of `pat` leaves `rep` in the replaced text. */
  lemma {:induction false} ReplaceKeepsReplacement(s: string, pat: string, rep: string)
    requires |pat| > 0 && Contains(s, pat)
    ensures Contains(Replace(s, pat, rep), rep)
    decreases |s|
  {
    if |pat| <= |s| && s[..|pat|] == pat {
      OccursInPrefix(rep, Replace(s[|pat|..], pat, rep), rep, 0);
    } else {
      var i :| 0 <= i <= |s| && OccursAt(s, pat, i);
      assert i > 0;
      assert s[1..][i - 1..i - 1 + |pat|] == s[i..i + |pat|];
      assert OccursAt(s[1..], pat, i - 1);
      ReplaceKeepsReplacement(s[1..], pat, rep);
      var j :| 0 <= j <= |Replace(s[1..], pat, rep)| && OccursAt(Replace(s[1..], pat, rep), rep, j);
      OccursInConcat([s[0]], Replace(s[1..], pat, rep), rep, j);
    }
  }

  /**
   * When `rep` begins with `first` and `q` does not contain `first`, a copy of
   * `q` at the very start of the replaced text was already at the start of `s`.
   */
  lemma {:induction false} ReplacePrefixFrom(s: string, pat: string, rep: string, q: string, first: char)
    requires |pat| > 0 && |rep| > 0 && rep[0] == first
    requires forall k | 0 <= k < |q| :: q[k] != first
    requires OccursAt(Replace(s, pat, rep), q, 0)
    ensures OccursAt(s, q, 0)
    decreases |s|
  {
    if |q| > 0 {
      var t := Replace(s, pat, rep);
      if |pat| <= |s| && s[..|pat|] == pat {
        CharAt(t, q, 0, 0);
        assert false;
      } else if s == [] {
      } else {
        var tail := Replace(s[1..], pat, rep);
        assert t == [s[0]] + tail;
        assert tail[..|q| - 1] == t[1..|q|];
        assert OccursAt(tail, q[1..], 0);
        ReplacePrefixFrom(s[1..], pat, rep, q[1..], first);
        assert s[..|q|] == [s[0]] + s[1..][..|q| - 1];
      }
    }
  }

  lemma SuffixKeepsAbsence(s: string, n: nat, q: string)
    requires n <= |s| && !Contains(s, q)
    ensures !Contains(s[n..], q)
  {
    if j :| 0 <= j <= |s[n..]| && OccursAt(s[n..], q, j) {
      assert s[n + j..n + j + |q|] == s[n..][j..j + |q|];
      assert OccursAt(s, q, n + j);
    }
  }

  /** Two texts free of `q`, joined after a character `q` never uses, stay free of `q`. */
  lemma JoinKeepsAbsence(a: string, b: string, q: string)
    requires |a| > 0 && forall k | 0 <= k < |q| :: q[k] != a[|a| - 1]
    requires !Contains(a, q) && !Contains(b, q)
    ensures !Contains(a + b, q)
  {
    var t := a + b;
    if i :| 0 <= i <= |t| && OccursAt(t, q, i) {
      if i >= |a| {
        assert b[i - |a|..i - |a| + |q|] == t[i..i + |q|];
        assert OccursAt(b, q, i - |a|);
      } else if i + |q| <= |a| {
        assert a[i..i + |q|] == t[i..i + |q|];
        assert OccursAt(a, q, i);
      } else {
        CharAt(t, q, i, |a| - 1 - i);
        assert false;
      }
    }
  }

  /**
   * Replacing cannot create a new occurrence of `q` when `rep` is framed by
   * two characters `q` never uses and does not itself contain `q`.
   */
  lemma {:induction false} ReplaceAddsNoOccurrence(s: string, pat: string, rep: string, q: string)
    requires |pat| > 0 && |rep| > 0 && |q| > 0
    requires forall k | 0 <= k < |q| :: q[k] != rep[0] && q[k] != rep[|rep| - 1]
    requires !Contains(rep, q)
    requires !Contains(s, q)
    ensures !Contains(Replace(s, pat, rep), q)
    decreases |s|
  {
    if |pat| <= |s| && s[..|pat|] == pat {
      SuffixKeepsAbsence(s, |pat|, q);
      ReplaceAddsNoOccurrence(s[|pat|..], pat, rep, q);
      JoinKeepsAbsence(rep, Replace(s[|pat|..], pat, rep), q);
    } else if s != [] {
      SuffixKeepsAbsence(s, 1, q);
      ReplaceAddsNoOccurrence(s[1..], pat, rep, q);
      CopiedCharAddsNoOccurrence(s, pat, rep, q);
    }
  }

  /** The step of `ReplaceAddsNoOccurrence` where the first character is copied. */
  lemma CopiedCharAddsNoOccurrence(s: string, pat: string, rep: string, q: string)
    requires |pat| > 0 && |rep| > 0 && |q| > 0 && s != []
    requires !(|pat| <= |s| && s[..|pat|] == pat)
    requires forall k | 0 <= k < |q| :: q[k] != rep[0]
    requires !Contains(s, q)
    requires !Contains(Replace(s[1..], pat, rep), q)
    ensures !Contains(Replace(s, pat, rep), q)
  {
    var t := Replace(s, pat, rep);
    assert t == [s[0]] + Replace(s[1..], pat, rep);
    if OccursAt(t, q, 0) {
      ReplacePrefixFrom(s, pat, rep, q, rep[0]);
    }
    ConsKeepsAbsence(s[0], Replace(s[1..], pat, rep), q);
  }

  /** One character in front adds no occurrence of `q` unless `q` starts there. */
  lemma ConsKeepsAbsence(c: char, tail: string, q: string)
    requires !OccursAt([c] + tail, q, 0) && !Contains(tail, q)
    ensures !Contains([c] + tail, q)
  {
    var t := [c] + tail;
    forall i | 1 <= i <= |t|
      ensures !OccursAt(t, q, i)
    {
      OccursAtShift(t, q, i - 1);
      assert t[1..] == tail;
    }
  }


  /** Without an occurrence of `pat`, replacing changes nothing. */
  lemma {:induction false} ReplaceWithoutOccurrence(s: string, pat: string, rep: string)
    requires |pat| > 0 && !Contains(s, pat)
    ensures Replace(s, pat, rep) == s
    decreases |s|
  {
    assert !OccursAt(s, pat, 0);
    if s != [] {
      SuffixKeepsAbsence(s, 1, pat);
      ReplaceWithoutOccurrence(s[1..], pat, rep);
    }
  }

  /** `s` has no character `c`. */
  predicate Lacks(s: string, c: char) {
    forall i | 0 <= i < |s| :: s[i] != c
  }

  lemma LacksConcat(a: string, b: string, c: char)
    requires Lacks(a, c) && Lacks(b, c)
    ensures Lacks(a + b, c)
  {
  }

  lemma OccursAtShift(s: string, pat: string, i: nat)
    requires s != []
    ensures OccursAt(s[1..], pat, i) <==> OccursAt(s, pat, i + 1)
  {
    if i + 1 + |pat| <= |s| {
      assert s[1..][i..i + |pat|] == s[i + 1..i + 1 + |pat|];
    }
  }

  /** A leading stretch in which no `pat` starts is copied by `Replace`. */
  lemma {:induction false} ReplaceCopiesPrefix(s: string, pat: string, rep: string, n: nat)
    requires |pat| > 0 && n <= |s|
    requires forall i | 0 <= i < n :: !OccursAt(s, pat, i)
    ensures Replace(s, pat, rep) == s[..n] + Replace(s[n..], pat, rep)
    decreases n
  {
    if n > 0 {
      assert !OccursAt(s, pat, 0);
      AbsenceShifts(s, pat, n);
      ReplaceCopiesPrefix(s[1..], pat, rep, n - 1);
      PeelFirst(s, n);
      Regroup(Replace(s, pat, rep), [s[0]], s[1..][..n - 1], Replace(s[1..], pat, rep), Replace(s[n..], pat, rep));
    }
  }

  /** No `pat` starting before n in s: none starts before n - 1 in s[1..]. */
  lemma AbsenceShifts(s: string, pat: string, n: nat)
    requires 0 < n <= |s|
    requires forall i | 0 <= i < n :: !OccursAt(s, pat, i)
    ensures forall i | 0 <= i < n - 1 :: !OccursAt(s[1..], pat, i)
  {
    forall i | 0 <= i < n - 1
      ensures !OccursAt(s[1..], pat, i)
    {
      OccursAtShift(s, pat, i);
    }
  }

  /** Two splits in a row regroup into one. */
  lemma Regroup(x: string, c: string, a: string, y: string, z: string)
    requires x == c + y && y == a + z
    ensures x == (c + a) + z
  {
    assert c + (a + z) == (c + a) + z;
  }

  /** The first n characters of s are its head and n - 1 of its tail. */
  lemma PeelFirst(s: string, n: nat)
    requires 0 < n <= |s|
    ensures s[..n] == [s[0]] + s[1..][..n - 1]
    ensures s[1..][n - 1..] == s[n..]
  {
  }

  /**
   * With no `pat` starting inside `a` and none in `t`, the one after `a` is
   * the only one replaced.
   */
  lemma ReplaceOnlyAfter(a: string, pat: string, t: string, rep: string)
    requires |pat| > 0
    requires forall i | 0 <= i < |a| :: !OccursAt(a + (pat + t), pat, i)
    requires !Contains(t, pat)
    ensures Replace(a + (pat + t), pat, rep) == a + (rep + t)
  {
    var s := a + (pat + t);
    ReplaceCopiesPrefix(s, pat, rep, |a|);
    assert s[..|a|] == a && s[|a|..] == pat + t;
    assert (pat + t)[..|pat|] == pat && (pat + t)[|pat|..] == t;
    ReplaceWithoutOccurrence(t, pat, rep);
  }

  /** Slices of a suffix of s are slices of s. */
  lemma SuffixSlices(s: string, i: nat, t: string, k: nat)
    requires i <= |s| && s[i..] == t && k <= |t|
    ensures s[i..i + k] == t[..k] && s[i + k..] == t[k..]
  {
    assert forall m | 0 <= m < k :: s[i..i + k][m] == s[i..][m];
  }

  /** The pieces of a + (b + (c + r)) sit where their lengths say. */
  lemma ConcatSlices(a: string, b: string, c: string, r: string)
    ensures var d := a + (b + (c + r));
      && d[..|a|] == a && d[|a|..|a| + |b|] == b
      && d[|a| + |b|..|a| + |b| + |c|] == c && d[|a| + |b| + |c|..] == r
  {
    var d := a + (b + (c + r));
    assert d[|a|..] == b + (c + r);
    assert d[|a| + |b|..] == c + r;
  }
}
