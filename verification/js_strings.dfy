/** The handful of JavaScript string built-ins the application relies on,
    written out over `seq<char>`: `trim`, `split` on one character, `join`,
    `includes`, `startsWith`/`endsWith`, a global literal `replace`,
    `toLowerCase`/`toUpperCase` and decimal formatting of integers. */
module JsStrings {

  import opened Wrappers

  /** ECMAScript WhiteSpace and LineTerminator code points: exactly what
      `String.prototype.trim` removes (the Unicode "Zs" category spelled out). */
  predicate IsSpace(c: char) {
    || c == ' ' || c == '\t' || c == '\n' || c == '\r'
    || c == '\U{000B}' || c == '\U{000C}' || c == '\U{00A0}' || c == '\U{FEFF}'
    || c == '\U{1680}' || ('\U{2000}' <= c <= '\U{200A}')
    || c == '\U{2028}' || c == '\U{2029}' || c == '\U{202F}' || c == '\U{205F}'
    || c == '\U{3000}'
  }

  /** ECMAScript line terminators: what a regular-expression `.` does not match. */
  predicate IsLineTerminator(c: char) {
    c == '\n' || c == '\r' || c == '\U{2028}' || c == '\U{2029}'
  }

  predicate AllSpace(s: string) {
    forall i :: 0 <= i < |s| ==> IsSpace(s[i])
  }

  /** `s` carries no leading and no trailing white space. */
  predicate IsTrimmed(s: string) {
    |s| == 0 || (!IsSpace(s[0]) && !IsSpace(s[|s| - 1]))
  }

  function TrimStart(s: string): string {
    if |s| > 0 && IsSpace(s[0]) then TrimStart(s[1..]) else s
  }

  function TrimEnd(s: string): string {
    if |s| > 0 && IsSpace(s[|s| - 1]) then TrimEnd(s[..|s| - 1]) else s
  }

  /** TrimStart drops a white-space prefix and stops at the first other character. */
  lemma {:induction false} TrimStartFacts(s: string)
    ensures var r := TrimStart(s);
            |r| <= |s| && r == s[|s| - |r|..] && AllSpace(s[..|s| - |r|])
            && (|r| == 0 || !IsSpace(r[0]))
  {
    if |s| > 0 && IsSpace(s[0]) {
      var t := s[1..];
      TrimStartFacts(t);
      var r := TrimStart(t);
      assert r == t[|t| - |r|..] == s[|s| - |r|..];
      forall i | 0 <= i < |s| - |r| ensures IsSpace(s[i]) {
        if i > 0 {
          assert s[i] == t[..|t| - |r|][i - 1];
        }
      }
    }
  }

  /** TrimEnd drops a white-space suffix and stops at the last other character. */
  lemma {:induction false} TrimEndFacts(s: string)
    ensures var r := TrimEnd(s);
            |r| <= |s| && r == s[..|r|] && AllSpace(s[|r|..])
            && (|r| == 0 || !IsSpace(r[|r| - 1]))
  {
    if |s| > 0 && IsSpace(s[|s| - 1]) {
      var t := s[..|s| - 1];
      TrimEndFacts(t);
      var r := TrimEnd(t);
      assert r == t[..|r|] == s[..|r|];
      forall i | |r| <= i < |s| ensures IsSpace(s[i]) {
        if i < |s| - 1 {
          assert s[i] == t[|r|..][i - |r|];
        }
      }
    }
  }

  /** `String.prototype.trim`. */
  function Trim(s: string): (r: string)
    ensures IsTrimmed(r)
  {
    var a := TrimStart(s);
    TrimStartFacts(s);
    TrimEndFacts(a);
    TrimEnd(a)
  }

  /** What `trim` removes: the result is a slice of the input, and everything
      cut away on either side is white space. */
  lemma TrimIsSlice(s: string)
    ensures var r := Trim(s);
            exists k :: 0 <= k <= |s| - |r| && r == s[k..k + |r|]
              && AllSpace(s[..k]) && AllSpace(s[k + |r|..])
  {
    var a := TrimStart(s);
    TrimStartFacts(s);
    TrimEndFacts(a);
    var r := TrimEnd(a);
    var k := |s| - |a|;
    assert r == s[k..k + |r|];
    assert s[k + |r|..] == a[|r|..];
  }

  /** An independent description of `trim`: `t` is `s` with white space
      removed from both ends and no more. */
  predicate IsTrimOf(t: string, s: string) {
    IsTrimmed(t) && exists k :: 0 <= k <= |s| && TrimmedAt(t, s, k)
  }

  /** `t` sits at `k` in `s` with only white space around it. */
  predicate TrimmedAt(t: string, s: string, k: int) {
    0 <= k <= |s| - |t| && t == s[k..k + |t|] && AllSpace(s[..k]) && AllSpace(s[k + |t|..])
  }

  /** `trim` meets the description, and nothing else does. */
  lemma TrimCharacterised(s: string, t: string)
    ensures IsTrimOf(t, s) <==> t == Trim(s)
  {
    TrimIsSlice(s);
    var k0 :| 0 <= k0 <= |s| - |Trim(s)| && Trim(s) == s[k0..k0 + |Trim(s)|]
              && AllSpace(s[..k0]) && AllSpace(s[k0 + |Trim(s)|..]);
    assert TrimmedAt(Trim(s), s, k0);
    if IsTrimOf(t, s) {
      var k :| 0 <= k <= |s| && TrimmedAt(t, s, k);
      TrimmedSliceIsTrim(s, t, k);
    }
  }

  /** A trimmed slice with only white space around it is the trim. */
  lemma TrimmedSliceIsTrim(s: string, t: string, k: nat)
    requires IsTrimmed(t) && k + |t| <= |s| && t == s[k..k + |t|]
    requires AllSpace(s[..k]) && AllSpace(s[k + |t|..])
    ensures t == Trim(s)
  {
    var a := TrimStart(s);
    TrimStartFacts(s);
    TrimEndFacts(a);
    var r := TrimEnd(a);
    var k' := |s| - |a|;
    assert r == s[k'..k' + |r|];
    assert s[k' + |r|..] == a[|r|..];
    if |t| == 0 {
      assert s == s[..k] + s[k..];
      AllSpaceConcat(s[..k], s[k..]);
      TrimEmptyIff(s);
    } else {
      assert s[k] == t[0];
      if |r| == 0 {
        TrimEmptyIff(s);
        assert false;
      }
      assert s[k'] == r[0];
      assert k' == k;
      assert s[k + |t| - 1] == t[|t| - 1];
      assert s[k' + |r| - 1] == r[|r| - 1];
      assert |r| == |t|;
    }
  }

  /** Where the trimmed text starts in the original. */
  function TrimOffset(s: string): (k: nat)
    ensures k + |Trim(s)| <= |s| && Trim(s) == s[k..k + |Trim(s)|]
  {
    TrimStartFacts(s);
    TrimEndFacts(TrimStart(s));
    |s| - |TrimStart(s)|
  }

  /** Each character of the trimmed text is a character of the original. */
  lemma TrimChars(s: string)
    ensures forall i :: 0 <= i < |Trim(s)| ==> Trim(s)[i] == s[TrimOffset(s) + i]
  {
    var k, r := TrimOffset(s), Trim(s);
    forall i | 0 <= i < |r| ensures r[i] == s[k + i] {
      assert r[i] == s[k..k + |r|][i];
    }
  }

  /** Trimming a string that is already trimmed changes nothing, so `trim` is
      idempotent. */
  lemma TrimOfTrimmed(s: string)
    requires IsTrimmed(s)
    ensures Trim(s) == s
  {
    assert TrimStart(s) == s;
  }

  lemma TrimIdempotent(s: string)
    ensures Trim(Trim(s)) == Trim(s)
  {
    TrimOfTrimmed(Trim(s));
  }

  /** `trim` yields the empty string exactly for all-white-space input. */
  lemma TrimEmptyIff(s: string)
    ensures Trim(s) == [] <==> AllSpace(s)
  {
    if AllSpace(s) {
      TrimStartAllSpace(s);
    }
    var a := TrimStart(s);
    TrimStartFacts(s);
    TrimEndFacts(a);
    assert s == s[..|s| - |a|] + a;
    if Trim(s) == [] {
      assert a[0..] == a;
      AllSpaceConcat(s[..|s| - |a|], a);
    }
  }

  lemma AllSpaceConcat(x: string, y: string)
    requires AllSpace(x) && AllSpace(y)
    ensures AllSpace(x + y)
  {
    forall i | 0 <= i < |x + y|
      ensures IsSpace((x + y)[i])
    {
      if i >= |x| {
        assert (x + y)[i] == y[i - |x|];
      }
    }
  }

  lemma {:induction false} TrimStartAllSpace(s: string)
    requires AllSpace(s)
    ensures TrimStart(s) == []
  {
    if |s| > 0 {
      TrimStartAllSpace(s[1..]);
    }
  }

  /** `str.split(c)` for a one-character separator `c`: never empty; the pieces
      hold no `c`. */
  function Split(s: string, c: char): (r: seq<string>)
    ensures |r| >= 1
    ensures forall i, j :: 0 <= i < |r| && 0 <= j < |r[i]| ==> r[i][j] != c
  {
    if |s| == 0 then [""]
    else
      var rest := Split(s[1..], c);
      if s[0] == c then [""] + rest
      else [[s[0]] + rest[0]] + rest[1..]
  }

  /** `parts.join(sep)`. */
  function Join(parts: seq<string>, sep: string): (r: string)
    ensures |parts| == 0 ==> r == ""
    ensures |parts| == 1 ==> r == parts[0]
  {
    if |parts| == 0 then ""
    else if |parts| == 1 then parts[0]
    else parts[0] + sep + Join(parts[1..], sep)
  }

  /** Splitting on `c` and joining with `c` gives back the original string, so
      `split` loses nothing but the separators. */
  lemma {:induction false} SplitJoin(s: string, c: char)
    ensures Join(Split(s, c), [c]) == s
  {
    if |s| > 0 {
      var rest := Split(s[1..], c);
      SplitJoin(s[1..], c);
      if s[0] == c {
        if |rest| == 1 {
          assert Join([""] + rest, [c]) == "" + [c] + rest[0];
        } else {
          assert ([""] + rest)[1..] == rest;
        }
      } else {
        var r := [[s[0]] + rest[0]] + rest[1..];
        if |rest| == 1 {
          assert r == [[s[0]] + rest[0]];
        } else {
          assert r[1..] == rest[1..];
          assert Join(rest, [c]) == rest[0] + [c] + Join(rest[1..], [c]);
        }
      }
    }
  }

  /** The pieces of `split` are as many as the separators plus one. */
  lemma {:induction false} SplitCount(s: string, c: char)
    ensures |Split(s, c)| == CountChar(s, c) + 1
  {
    if |s| > 0 {
      SplitCount(s[1..], c);
    }
  }

  function CountChar(s: string, c: char): nat {
    if |s| == 0 then 0 else (if s[0] == c then 1 else 0) + CountChar(s[1..], c)
  }

  /** Index of the first occurrence of `c`, the `indexOf` of one character. */
  function IndexOf(s: string, c: char): (r: Option<nat>)
    ensures r.None? <==> c !in s
    ensures r.Some? ==> r.value < |s| && s[r.value] == c && c !in s[..r.value]
  {
    if |s| == 0 then None
    else if s[0] == c then Some(0)
    else
      match IndexOf(s[1..], c)
      case None => None
      case Some(i) => assert s[..i + 1] == [s[0]] + s[1..][..i]; Some(i + 1)
  }

  /** The first piece of `split(c)` is the text before the first `c`, and the
      second piece runs from just after it to the next `c` (or the end). */
  lemma {:induction false} SplitHeadIsBeforeFirst(s: string, c: char)
    ensures IndexOf(s, c).None? ==> Split(s, c) == [s]
    ensures IndexOf(s, c).Some? ==>
              var i := IndexOf(s, c).value;
              |Split(s, c)| >= 2 && Split(s, c)[0] == s[..i] && Split(s, c)[1..] == Split(s[i + 1..], c)
  {
    if |s| > 0 {
      SplitHeadIsBeforeFirst(s[1..], c);
      if s[0] != c && IndexOf(s[1..], c).None? {
        assert [s[0]] + s[1..] == s;
      } else if s[0] != c {
        var i := IndexOf(s[1..], c).value;
        assert s[1..][i + 1..] == s[i + 2..];
        assert s[..i + 1] == [s[0]] + s[1..][..i];
      }
    }
  }

  /** `s.startsWith(p)` */
  predicate StartsWith(s: string, p: string) {
    |p| <= |s| && s[..|p|] == p
  }

  /** `s.endsWith(p)` */
  predicate EndsWith(s: string, p: string) {
    |p| <= |s| && s[|s| - |p|..] == p
  }

  /** `p` occurs in `s` starting at index `i`. */
  predicate OccursAt(s: string, p: string, i: int) {
    0 <= i && i + |p| <= |s| && s[i..i + |p|] == p
  }

  /** `s.includes(p)`. */
  predicate Includes(s: string, p: string) {
    exists i :: 0 <= i <= |s| - |p| && OccursAt(s, p, i)
  }

  /** The trimmed text occurs in the original. */
  lemma TrimIsIncluded(s: string)
    ensures Includes(s, Trim(s))
  {
    SliceIsIncluded(s, Trim(s), TrimOffset(s));
  }

  lemma SliceIsIncluded(s: string, r: string, k: nat)
    requires k + |r| <= |s| && r == s[k..k + |r|]
    ensures Includes(s, r)
  {
    assert OccursAt(s, r, k);
  }

  lemma OccursAtTail(s: string, p: string, i: int)
    requires |s| > 0 && 0 <= i
    ensures OccursAt(s[1..], p, i) <==> OccursAt(s, p, i + 1)
  {
    if i + 1 + |p| <= |s| {
      assert s[1..][i..i + |p|] == s[i + 1..i + 1 + |p|];
    }
  }

  /** `s.replace(/pat/g, rep)` for a literal pattern: occurrences are found left
      to right, each replaced, and scanning resumes after the replaced text. */
  function ReplaceAll(s: string, pat: string, rep: string): (r: string)
    requires |pat| > 0
    decreases |s|
  {
    if StartsWith(s, pat) then rep + ReplaceAll(s[|pat|..], pat, rep)
    else if |s| == 0 then ""
    else [s[0]] + ReplaceAll(s[1..], pat, rep)
  }

  /** A string with no occurrence of the pattern is left as it is. */
  lemma {:induction false} ReplaceAllAbsent(s: string, pat: string, rep: string)
    requires |pat| > 0
    requires !Includes(s, pat)
    ensures ReplaceAll(s, pat, rep) == s
  {
    if |s| > 0 {
      forall i | 0 <= i <= |s| - 1 - |pat|
        ensures !OccursAt(s[1..], pat, i)
      {
        OccursAtTail(s, pat, i);
      }
      assert !StartsWith(s, pat) by {
        assert !OccursAt(s, pat, 0);
      }
      ReplaceAllAbsent(s[1..], pat, rep);
    }
  }

  /** An inserted `rep` can never be part of an occurrence of `q`: `rep`
      starts with a character `q` lacks, so no occurrence can reach over its
      start, and no occurrence can begin inside it. */
  predicate CannotOverlap(rep: string, q: string) {
    && |rep| > 0 && rep[0] !in q
    && forall d :: 1 <= d < |rep| ==> !StartsWith(rep[d..], q) && !StartsWith(q, rep[d..])
  }

  /** After a global replace no occurrence of the pattern is left, and no
      occurrence of another text `q` is created, provided the replacement
      cannot overlap them. */
  lemma ReplaceAllLeavesNone(s: string, pat: string, rep: string, q: string)
    requires |pat| > 0 && |q| > 0 && CannotOverlap(rep, q)
    requires q == pat || !Includes(s, q)
    ensures !Includes(ReplaceAll(s, pat, rep), q)
  {
    assert "" + s == s;
    ReplaceAllAfter("", s, pat, rep, q);
    assert "" + ReplaceAll(s, pat, rep) == ReplaceAll(s, pat, rep);
  }

  /** The same, with the text `u` already scanned in front. */
  lemma {:induction false} ReplaceAllAfter(u: string, s: string, pat: string, rep: string, q: string)
    requires |pat| > 0 && |q| > 0 && CannotOverlap(rep, q)
    requires q == pat || !Includes(u + s, q)
    requires forall i :: 0 <= i < |u| ==> !OccursAt(u + s, q, i)
    ensures !Includes(u + ReplaceAll(s, pat, rep), q)
    decreases |s|
  {
    if StartsWith(s, pat) {
      var s' := s[|pat|..];
      if q != pat {
        NoneInRest(u, s, |pat|, q);
      }
      assert "" + s' == s';
      ReplaceAllAfter("", s', pat, rep, q);
      AfterMatch(u, s, pat, rep, q);
    } else if |s| == 0 {
      assert u + ReplaceAll(s, pat, rep) == u + s;
    } else {
      assert !OccursAt(u + s, pat, |u|);
      ScannedOneMore(u, s, q);
      ReplaceAllAfter(u + [s[0]], s[1..], pat, rep, q);
      AfterOther(u, s, pat, rep);
    }
  }

  /** The step at a match: `rep` goes in, and the rest is replaced. */
  lemma AfterMatch(u: string, s: string, pat: string, rep: string, q: string)
    requires |pat| > 0 && |q| > 0 && CannotOverlap(rep, q) && StartsWith(s, pat)
    requires forall i :: 0 <= i < |u| ==> !OccursAt(u + s, q, i)
    requires !Includes("" + ReplaceAll(s[|pat|..], pat, rep), q)
    ensures !Includes(u + ReplaceAll(s, pat, rep), q)
  {
    var tail := ReplaceAll(s[|pat|..], pat, rep);
    assert "" + tail == tail;
    assert u + ReplaceAll(s, pat, rep) == u + rep + tail;
    NoOccurrenceAroundReplacement(u, s, rep, tail, q);
  }

  /** The step elsewhere: the first character is kept. */
  lemma AfterOther(u: string, s: string, pat: string, rep: string)
    requires |pat| > 0 && |s| > 0 && !StartsWith(s, pat)
    ensures u + ReplaceAll(s, pat, rep) == (u + [s[0]]) + ReplaceAll(s[1..], pat, rep)
  {
  }

  /** Moving the first character of `s` over to the scanned text `u`. */
  lemma ScannedOneMore(u: string, s: string, q: string)
    requires |s| > 0
    requires forall i :: 0 <= i <= |u| ==> !OccursAt(u + s, q, i)
    ensures (u + [s[0]]) + s[1..] == u + s
    ensures forall i :: 0 <= i < |u| + 1 ==> !OccursAt((u + [s[0]]) + s[1..], q, i)
  {
    assert (u + [s[0]]) + s[1..] == u + s;
  }

  /** A text absent from `u + s` is absent from what follows the first `n`
      characters of `s`. */
  lemma NoneInRest(u: string, s: string, n: nat, q: string)
    requires n <= |s| && !Includes(u + s, q)
    ensures !Includes(s[n..], q)
  {
    var x := u + s[..n];
    assert x + s[n..] == u + s;
    forall i | 0 <= i <= |s[n..]| - |q| ensures !OccursAt(s[n..], q, i) {
      OccursShifted(x, s[n..], q, i);
    }
  }

  /** An occurrence in `y` is exactly an occurrence in `x + y`, shifted by
      the length of `x`. */
  lemma OccursShifted(x: string, y: string, q: string, i: nat)
    ensures OccursAt(y, q, i) <==> OccursAt(x + y, q, |x| + i)
  {
    if i + |q| <= |y| {
      assert (x + y)[|x| + i..|x| + i + |q|] == y[i..i + |q|];
    }
  }

  /** An occurrence of `q` in `u + rep + tail` would lie in `u`, or in
      `tail`, or meet `rep`; the last is ruled out by `CannotOverlap`. */
  lemma NoOccurrenceAroundReplacement(u: string, s: string, rep: string, tail: string, q: string)
    requires |q| > 0 && CannotOverlap(rep, q)
    requires forall i :: 0 <= i < |u| ==> !OccursAt(u + s, q, i)
    requires !Includes(tail, q)
    ensures !Includes(u + rep + tail, q)
  {
    var w := u + rep + tail;
    var a, b := |u|, |u| + |rep|;
    forall j | 0 <= j <= |w| - |q| ensures !OccursAt(w, q, j) {
      if j + |q| <= a {
        NotInFront(u, s, rep + tail, q, j);
        assert u + (rep + tail) == w;
      } else if j < b {
        NotAcrossReplacement(u, rep, tail, q, j);
      } else {
        NotInTail(u + rep, tail, q, j);
      }
    }
  }

  /** A window inside `u` reads the same in `u + s` and in `u + y`. */
  lemma NotInFront(u: string, s: string, y: string, q: string, j: nat)
    requires j + |q| <= |u| && !OccursAt(u + s, q, j)
    ensures !OccursAt(u + y, q, j)
  {
    assert (u + y)[j..j + |q|] == u[j..j + |q|] == (u + s)[j..j + |q|];
  }

  /** A window starting in `tail` is a window of `tail`. */
  lemma NotInTail(x: string, tail: string, q: string, j: nat)
    requires |x| <= j && !Includes(tail, q)
    ensures !OccursAt(x + tail, q, j)
  {
    OccursShifted(x, tail, q, j - |x|);
  }

  /** No occurrence of `q` meets a replacement that cannot overlap it: one
      holding `rep[0]` lacks a character of `q`, one starting inside `rep`
      is ruled out by either the rest of `rep` or `q` being the longer. */
  lemma NotAcrossReplacement(u: string, rep: string, tail: string, q: string, j: nat)
    requires |q| > 0 && CannotOverlap(rep, q)
    requires |u| < j + |q| && j < |u| + |rep|
    ensures !OccursAt(u + rep + tail, q, j)
  {
    var w := u + rep + tail;
    var a := |u|;
    if j + |q| <= |w| {
      var o := w[j..j + |q|];
      if j <= a {
        assert o[a - j] == rep[0];
        CharIn(q, a - j);
      } else if j + |q| <= a + |rep| {
        var d := j - a;
        forall m | 0 <= m < |q| ensures o[m] == rep[d..][..|q|][m] {
          assert o[m] == w[j + m] == rep[d + m];
        }
        assert o == rep[d..][..|q|];
      } else {
        var d := j - a;
        forall m | 0 <= m < |rep| - d ensures o[..|rep| - d][m] == rep[d..][m] {
          assert o[m] == w[j + m] == rep[d + m];
        }
        assert o[..|rep| - d] == rep[d..];
      }
    }
  }

  /** Position `k` of `s` lies inside an occurrence of `p`. */
  predicate InOccurrence(s: string, p: string, k: int) {
    exists j :: k - |p| < j <= k && OccursAt(s, p, j)
  }

  /** Occurrences of `x` and `y` can never overlap: neither starts with a
      character of the other. */
  predicate Apart(x: string, y: string) {
    |x| > 0 && |y| > 0 && x[0] !in y && y[0] !in x
  }

  /** Two occurrences of `p` can never overlap: its first character does not
      come back later in it. */
  predicate SelfApart(p: string) {
    |p| > 0 && forall d :: 0 < d < |p| ==> p[d] != p[0]
  }

  /** Overlapping windows cannot hold occurrences of two texts that are
      apart. */
  lemma NotBoth(s: string, x: string, y: string, i: int, j: int)
    requires Apart(x, y)
    requires i <= j < i + |x| || j <= i < j + |y|
    ensures !OccursAt(s, x, i) || !OccursAt(s, y, j)
  {
    if i <= j < i + |x| {
      CharIn(x, j - i);
      if OccursAt(s, x, i) {
        assert s[j] == s[i..i + |x|][j - i];
      }
      if OccursAt(s, y, j) {
        assert s[j] == s[j..j + |y|][0];
      }
    } else {
      CharIn(y, i - j);
      if OccursAt(s, y, j) {
        assert s[i] == s[j..j + |y|][i - j];
      }
      if OccursAt(s, x, i) {
        assert s[i] == s[i..i + |x|][0];
      }
    }
  }

  /** An occurrence of a self-apart text excludes another that starts inside
      it. */
  lemma NotSelfOverlapping(s: string, p: string, i: int, j: int)
    requires SelfApart(p) && i < j < i + |p|
    ensures !OccursAt(s, p, i) || !OccursAt(s, p, j)
  {
    if OccursAt(s, p, i) {
      assert s[j] == s[i..i + |p|][j - i];
    }
    if OccursAt(s, p, j) {
      assert s[j] == s[j..j + |p|][0];
    }
  }

  /** A position inside an occurrence in `y` is inside the shifted occurrence
      in `x + y`. */
  lemma InOccurrenceShifted(x: string, y: string, p: string, k: nat)
    ensures InOccurrence(y, p, k) ==> InOccurrence(x + y, p, |x| + k)
  {
    if InOccurrence(y, p, k) {
      var j :| k - |p| < j <= k && OccursAt(y, p, j);
      OccursShifted(x, y, p, j);
    }
  }

  /** What a global replace does when the replacement is as long as a
      self-apart pattern: the length is kept, every occurrence of the pattern
      becomes the replacement in place, and every position outside the
      occurrences keeps its character. */
  predicate ReplacedPointwise(s: string, pat: string, rep: string, r: string) {
    |r| == |s| && OccurrencesReplaced(s, pat, rep, r) && OthersKept(s, pat, r)
  }

  predicate OccurrencesReplaced(s: string, pat: string, rep: string, r: string) {
    forall j :: 0 <= j <= |s| - |pat| && OccursAt(s, pat, j) ==> OccursAt(r, rep, j)
  }

  predicate OthersKept(s: string, pat: string, r: string)
    requires |r| == |s|
  {
    forall k :: 0 <= k < |s| && !InOccurrence(s, pat, k) ==> r[k] == s[k]
  }

  lemma {:induction false} ReplaceAllPointwise(s: string, pat: string, rep: string)
    requires SelfApart(pat) && |rep| == |pat|
    ensures ReplacedPointwise(s, pat, rep, ReplaceAll(s, pat, rep))
    decreases |s|
  {
    if StartsWith(s, pat) {
      ReplaceAllPointwise(s[|pat|..], pat, rep);
      PointwiseAtMatch(s, pat, rep);
    } else if |s| > 0 {
      ReplaceAllPointwise(s[1..], pat, rep);
      PointwiseElsewhere(s, pat, rep);
    }
  }

  /** The step at a match: `rep` in front of the replaced rest. */
  lemma PointwiseAtMatch(s: string, pat: string, rep: string)
    requires SelfApart(pat) && |rep| == |pat| && StartsWith(s, pat)
    requires ReplacedPointwise(s[|pat|..], pat, rep, ReplaceAll(s[|pat|..], pat, rep))
    ensures ReplacedPointwise(s, pat, rep, ReplaceAll(s, pat, rep))
  {
    var n := |pat|;
    assert s[..n] + s[n..] == s;
    assert ReplaceAll(s, pat, rep) == rep + ReplaceAll(s[n..], pat, rep);
    OccurrencesAtMatch(s[..n], s[n..], pat, rep, ReplaceAll(s[n..], pat, rep));
    KeptAtMatch(s[..n], s[n..], pat, rep, ReplaceAll(s[n..], pat, rep));
  }

  lemma OccurrencesAtMatch(x: string, s': string, pat: string, rep: string, r': string)
    requires SelfApart(pat) && |rep| == |pat| && x == pat
    requires OccurrencesReplaced(s', pat, rep, r')
    ensures OccurrencesReplaced(x + s', pat, rep, rep + r')
  {
    var s, r, n := x + s', rep + r', |pat|;
    assert OccursAt(s, pat, 0);
    forall j | 0 <= j <= |s| - n && OccursAt(s, pat, j) ensures OccursAt(r, rep, j) {
      if j == 0 {
        assert r[..n] == rep;
      } else if j < n {
        NotSelfOverlapping(s, pat, 0, j);
      } else {
        OccursShifted(x, s', pat, j - n);
        OccursShifted(rep, r', rep, j - n);
      }
    }
  }

  lemma KeptAtMatch(x: string, s': string, pat: string, rep: string, r': string)
    requires |rep| == |pat| && x == pat && |r'| == |s'|
    requires OthersKept(s', pat, r')
    ensures OthersKept(x + s', pat, rep + r')
  {
    var s, r, n := x + s', rep + r', |pat|;
    assert OccursAt(s, pat, 0);
    forall k | 0 <= k < |s| && !InOccurrence(s, pat, k) ensures r[k] == s[k] {
      InOccurrenceShifted(x, s', pat, k - n);
      assert r[k] == r'[k - n] && s[k] == s'[k - n];
    }
  }

  /** The step elsewhere: the first character in front of the replaced
      rest. */
  lemma PointwiseElsewhere(s: string, pat: string, rep: string)
    requires |pat| > 0 && |s| > 0 && !StartsWith(s, pat)
    requires ReplacedPointwise(s[1..], pat, rep, ReplaceAll(s[1..], pat, rep))
    ensures ReplacedPointwise(s, pat, rep, ReplaceAll(s, pat, rep))
  {
    var x, s' := [s[0]], s[1..];
    var r, r' := ReplaceAll(s, pat, rep), ReplaceAll(s[1..], pat, rep);
    assert x + s' == s;
    assert r == x + r';
    assert !OccursAt(s, pat, 0);
    forall j | 0 <= j <= |s| - |pat| && OccursAt(s, pat, j) ensures OccursAt(r, rep, j) {
      OccursShifted(x, s', pat, j - 1);
      OccursShifted(x, r', rep, j - 1);
    }
    forall k | 0 <= k < |s| && !InOccurrence(s, pat, k) ensures r[k] == s[k] {
      if k > 0 {
        InOccurrenceShifted(x, s', pat, k - 1);
        assert r[k] == r'[k - 1] && s[k] == s'[k - 1];
      }
    }
  }

  /** A text apart from the pattern survives a pointwise replace in place. */
  lemma KeptByReplace(s: string, pat: string, rep: string, r: string, w: string, k: int)
    requires ReplacedPointwise(s, pat, rep, r) && Apart(w, pat) && OccursAt(s, w, k)
    ensures OccursAt(r, w, k)
  {
    forall p | k <= p < k + |w| ensures r[p] == s[p] {
      forall j | p - |pat| < j <= p ensures !OccursAt(s, pat, j) {
        NotBoth(s, w, pat, k, j);
      }
    }
    assert r[k..k + |w|] == s[k..k + |w|];
  }

  /** A text apart from the replacement does not appear where it was absent. */
  lemma NotCreatedByReplace(s: string, pat: string, rep: string, r: string, w: string, j: int)
    requires ReplacedPointwise(s, pat, rep, r) && |rep| == |pat| && Apart(w, rep) && !OccursAt(s, w, j)
    ensures !OccursAt(r, w, j)
  {
    if 0 <= j && j + |w| <= |s| {
      if forall p :: j <= p < j + |w| ==> !InOccurrence(s, pat, p) {
        assert r[j..j + |w|] == s[j..j + |w|];
      } else {
        var p :| j <= p < j + |w| && InOccurrence(s, pat, p);
        var m :| p - |pat| < m <= p && OccursAt(s, pat, m);
        NotBoth(r, w, rep, j, m);
      }
    }
  }

  lemma CharIn(s: string, i: int)
    requires 0 <= i < |s|
    ensures s[i] in s
  {
  }


  /** A text put together from three parts starts with the first and ends
      with the last. */
  lemma FramedBy(h: string, m: string, t: string)
    ensures StartsWith(h + (m + t), h) && EndsWith(h + (m + t), t)
  {
    assert (h + (m + t))[..|h|] == h;
    assert (h + (m + t))[|h| + |m|..] == t;
  }



  /** An occurrence inside a window is an occurrence of the window. */
  lemma OccursInWindow(s: string, a: nat, b: nat, p: string, k: int)
    requires a <= k && k + |p| <= b <= |s| && OccursAt(s, p, k)
    ensures OccursAt(s[a..b], p, k - a)
  {
    var w := s[a..b];
    forall i | 0 <= i < |p| ensures w[k - a + i] == p[i] {
      assert w[k - a + i] == s[k + i] == s[k..k + |p|][i];
    }
    assert w[k - a..k - a + |p|] == p;
  }

  /** An occurrence in a window is an occurrence in the whole string. */
  lemma OccursInSlice(s: string, a: nat, b: nat, p: string, k: int)
    requires a <= b <= |s| && OccursAt(s[a..b], p, k)
    ensures OccursAt(s, p, a + k) && a + k + |p| <= b
  {
    var w := s[a..b];
    var x, y := s[a + k..a + k + |p|], w[k..k + |p|];
    forall j | 0 <= j < |p| ensures x[j] == y[j] {
      assert w[k + j] == s[a + k + j];
    }
    assert x == y;
  }

  /** ASCII case mapping of `toLowerCase` / `toUpperCase`. */
  function LowerChar(c: char): char {
    if 'A' <= c <= 'Z' then (c as int + 32) as char else c
  }

  function UpperChar(c: char): char {
    if 'a' <= c <= 'z' then (c as int - 32) as char else c
  }

  function ToLower(s: string): (r: string)
    ensures |r| == |s|
    ensures forall i :: 0 <= i < |s| ==> r[i] == LowerChar(s[i])
  {
    if |s| == 0 then "" else [LowerChar(s[0])] + ToLower(s[1..])
  }

  function ToUpper(s: string): (r: string)
    ensures |r| == |s|
    ensures forall i :: 0 <= i < |s| ==> r[i] == UpperChar(s[i])
  {
    if |s| == 0 then "" else [UpperChar(s[0])] + ToUpper(s[1..])
  }

  /** Lower-casing twice is lower-casing once. */
  lemma ToLowerIdempotent(s: string)
    ensures ToLower(ToLower(s)) == ToLower(s)
  {
  }

  function DigitChar(d: nat): (c: char)
    requires d < 10
    ensures '0' <= c <= '9'
  {
    ('0' as int + d) as char
  }

  /** Decimal rendering of a non-negative integer, as template literals and
      `'+' + n` print it: no sign, no leading zeros. */
  function NatToString(n: nat): (r: string)
    ensures |r| >= 1
    ensures forall i :: 0 <= i < |r| ==> '0' <= r[i] <= '9'
    ensures |r| > 1 ==> r[0] != '0'
  {
    if n < 10 then [DigitChar(n)] else NatToString(n / 10) + [DigitChar(n % 10)]
  }

  /** Reads a string of decimal digits back as a number. */
  function DigitsValue(s: string): nat
    requires forall i :: 0 <= i < |s| ==> '0' <= s[i] <= '9'
  {
    if |s| == 0 then 0
    else DigitsValue(s[..|s| - 1]) * 10 + (s[|s| - 1] as int - '0' as int)
  }

  /** Decimal rendering is undone by reading the digits back. */
  lemma {:induction false} NatToStringRoundTrip(n: nat)
    ensures DigitsValue(NatToString(n)) == n
  {
    if n >= 10 {
      var s := NatToString(n / 10) + [DigitChar(n % 10)];
      assert s[..|s| - 1] == NatToString(n / 10);
      NatToStringRoundTrip(n / 10);
    }
  }

  /** Distinct numbers print differently. */
  lemma NatToStringInjective(m: nat, n: nat)
    requires NatToString(m) == NatToString(n)
    ensures m == n
  {
    NatToStringRoundTrip(m);
    NatToStringRoundTrip(n);
  }
}
