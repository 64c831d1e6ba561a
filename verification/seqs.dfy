/** Order-preserving list combinators standing for `Array.prototype.map`,
    `filter` and the `map(...).filter(Boolean)` idiom. */
module Seqs {

  import opened Wrappers

  function Map<T, U>(f: T -> U, s: seq<T>): (r: seq<U>)
    ensures |r| == |s|
    ensures forall i :: 0 <= i < |s| ==> r[i] == f(s[i])
  {
    if |s| == 0 then [] else [f(s[0])] + Map(f, s[1..])
  }

  /** The results of `f` on each element, concatenated in order. */
  function FlatMap<T, U>(f: T -> seq<U>, s: seq<T>): seq<U> {
    if |s| == 0 then [] else FlatMap(f, s[..|s| - 1]) + f(s[|s| - 1])
  }

  lemma {:induction false} FlatMapAppend<T, U>(f: T -> seq<U>, a: seq<T>, b: seq<T>)
    ensures FlatMap(f, a + b) == FlatMap(f, a) + FlatMap(f, b)
    decreases |b|
  {
    if |b| == 0 {
      assert a + b == a;
    } else {
      var n := |b|;
      DropLastOfAppend(a, b);
      assert (a + b)[|a + b| - 1] == b[n - 1];
      FlatMapAppend(f, a, b[..n - 1]);
      var x, y, z := FlatMap(f, a), FlatMap(f, b[..n - 1]), f(b[n - 1]);
      assert FlatMap(f, a + b) == FlatMap(f, a + b[..n - 1]) + z;
      assert (x + y) + z == x + (y + z);
    }
  }

  lemma {:induction false} FlatMapMembers<T, U>(f: T -> seq<U>, s: seq<T>, x: U)
    ensures x in FlatMap(f, s) <==> exists i :: 0 <= i < |s| && x in f(s[i])
  {
    var n := |s|;
    if n > 0 {
      FlatMapMembers(f, s[..n - 1], x);
      if x in FlatMap(f, s) && x !in f(s[n - 1]) {
        assert x in FlatMap(f, s[..n - 1]);
        var i :| 0 <= i < n - 1 && x in f(s[..n - 1][i]);
        assert s[..n - 1][i] == s[i];
      }
      if exists i :: 0 <= i < n && x in f(s[i]) {
        var i :| 0 <= i < n && x in f(s[i]);
        if i < n - 1 {
          assert s[..n - 1][i] == s[i];
        }
      }
    }
  }

  /** `s.some(test)`. */
  predicate Any<T>(s: seq<T>, test: T -> bool) {
    |s| > 0 && (test(s[0]) || Any(s[1..], test))
  }

  lemma {:induction false} AnyIff<T>(s: seq<T>, test: T -> bool)
    ensures Any(s, test) <==> exists k :: 0 <= k < |s| && test(s[k])
  {
    if |s| > 0 {
      AnyIff(s[1..], test);
      if exists k :: 1 <= k < |s| && test(s[k]) {
        var k :| 1 <= k < |s| && test(s[k]);
        assert s[1..][k - 1] == s[k];
      }
      if exists k :: 0 <= k < |s[1..]| && test(s[1..][k]) {
        var k :| 0 <= k < |s[1..]| && test(s[1..][k]);
        assert s[1..][k] == s[k + 1];
      }
    }
  }

  /** `s.filter(keep)`: the elements that pass, in their original order. */
  function Filter<T(!new)>(s: seq<T>, keep: T -> bool): (r: seq<T>)
    ensures |r| <= |s|
    ensures forall x :: x in r <==> x in s && keep(x)
  {
    if |s| == 0 then []
    else if keep(s[0]) then [s[0]] + Filter(s[1..], keep)
    else Filter(s[1..], keep)
  }

  /** `r` is `s` with some elements left out and the rest in their order. */
  predicate IsSubsequence<T(==)>(r: seq<T>, s: seq<T>) {
    if |r| == 0 then true
    else if |s| == 0 then false
    else if r[0] == s[0] then IsSubsequence(r[1..], s[1..])
    else IsSubsequence(r, s[1..])
  }

  lemma {:induction false} SubsequenceOfEmpty<T>(s: seq<T>)
    ensures IsSubsequence([], s)
  {
  }

  /** Skipping one more element of the longer sequence keeps a subsequence. */
  lemma {:induction false} SubsequenceOfTail<T>(r: seq<T>, s: seq<T>)
    requires |s| > 0 && IsSubsequence(r, s[1..])
    ensures IsSubsequence(r, s)
    decreases |s|, 1
  {
    if |r| > 0 && r[0] == s[0] {
      SubsequenceDropHead(r, s[1..]);
    }
  }

  /** Dropping the first element of a subsequence keeps a subsequence. */
  lemma {:induction false} SubsequenceDropHead<T>(r: seq<T>, s: seq<T>)
    requires |r| > 0 && IsSubsequence(r, s)
    ensures IsSubsequence(r[1..], s)
    decreases |s|, 2
  {
    if r[0] == s[0] {
      SubsequenceOfTail(r[1..], s);
    } else {
      SubsequenceDropHead(r, s[1..]);
      SubsequenceOfTail(r[1..], s);
    }
  }

  lemma {:induction false} SubsequenceTransitive<T>(a: seq<T>, b: seq<T>, c: seq<T>)
    requires IsSubsequence(a, b) && IsSubsequence(b, c)
    ensures IsSubsequence(a, c)
    decreases |c|
  {
    if |a| > 0 {
      if b[0] == c[0] {
        if a[0] == b[0] {
          SubsequenceTransitive(a[1..], b[1..], c[1..]);
        } else {
          SubsequenceTransitive(a, b[1..], c[1..]);
          SubsequenceOfTail(a, c);
        }
      } else {
        SubsequenceTransitive(a, b, c[1..]);
        SubsequenceOfTail(a, c);
      }
    }
  }

  lemma {:induction false} SubsequenceReflexive<T>(s: seq<T>)
    ensures IsSubsequence(s, s)
  {
    if |s| > 0 {
      SubsequenceReflexive(s[1..]);
    }
  }

  /** `s` without its element at `i`. */
  function RemoveAt<T>(s: seq<T>, i: nat): (r: seq<T>)
    requires i < |s|
    ensures |r| == |s| - 1
    ensures forall k :: 0 <= k < i ==> r[k] == s[k]
    ensures forall k :: i <= k < |r| ==> r[k] == s[k + 1]
  {
    s[..i] + s[i + 1..]
  }

  /** What is left after removing one element: the part before it, then
      the part after it. */
  lemma RemoveAtSplit<T>(s: seq<T>, i: nat)
    requires i < |s|
    ensures s == s[..i] + [s[i]] + s[i + 1..]
    ensures RemoveAt(s, i) == s[..i] + s[i + 1..]
  {
  }

  /** Removing any element but the last keeps the last one last. */
  lemma RemoveAtKeepsLast<T>(s: seq<T>, i: nat)
    requires i + 1 < |s|
    ensures |RemoveAt(s, i)| > 0 && RemoveAt(s, i)[|s| - 2] == s[|s| - 1]
  {
  }

  /** A sequence is a proper prefix of itself extended by a non-empty part,
      and the part follows it. */
  lemma PrefixOfAppend<T>(a: seq<T>, b: seq<T>)
    ensures (a + b)[..|a|] == a
    ensures forall i :: |a| <= i < |a + b| ==> (a + b)[i] == b[i - |a|]
  {
  }

  /** Appending one element keeps the others where they were. */
  lemma PushIndex<T>(s: seq<T>, x: T)
    ensures forall i :: 0 <= i < |s| ==> (s + [x])[i] == s[i]
    ensures (s + [x])[|s|] == x
  {
  }

  /** Dropping the last element of a concatenation with a non-empty second
      part drops it from that part. */
  lemma DropLastOfAppend<T>(a: seq<T>, b: seq<T>)
    requires |b| > 0
    ensures (a + b)[..|a + b| - 1] == a + b[..|b| - 1]
  {
  }

  /** Removing the first element is dropping it. */
  lemma RemoveFirst<T>(s: seq<T>)
    requires |s| > 0
    ensures RemoveAt(s, 0) == s[1..]
  {
  }

  /** Removing the element at `j`, then the first one. */
  lemma RemoveFirstAndAt<T>(s: seq<T>, j: nat)
    requires 1 <= j < |s|
    ensures RemoveAt(RemoveAt(s, j), 0) == s[1..j] + s[j + 1..]
  {
    var r := RemoveAt(RemoveAt(s, j), 0);
    assert forall k :: 0 <= k < |r| ==> r[k] == (s[1..j] + s[j + 1..])[k];
  }

  /** Removing the element at `i` keeps the others in their order. */
  lemma {:induction false} RemoveIsSubsequence<T>(s: seq<T>, i: nat)
    requires i < |s|
    ensures IsSubsequence(RemoveAt(s, i), s)
  {
    if i == 0 {
      assert s[..0] + s[1..] == s[1..];
      SubsequenceReflexive(s[1..]);
      SubsequenceOfTail(s[1..], s);
    } else {
      var r := s[..i] + s[i + 1..];
      RemoveIsSubsequence(s[1..], i - 1);
      assert r[1..] == s[1..][..i - 1] + s[1..][i..];
    }
  }

  /** Filtering keeps the relative order of what it keeps. */
  lemma {:induction false} FilterIsSubsequence<T(!new)>(s: seq<T>, keep: T -> bool)
    ensures IsSubsequence(Filter(s, keep), s)
  {
    if |s| > 0 {
      FilterIsSubsequence(s[1..], keep);
      var r := Filter(s, keep);
      if !keep(s[0]) && |r| > 0 {
        assert keep(r[0]);
      }
    }
  }

  /** Filtering distributes over concatenation: what comes first in the input
      comes first in the output. */
  lemma {:induction false} FilterAppend<T(!new)>(a: seq<T>, b: seq<T>, keep: T -> bool)
    ensures Filter(a + b, keep) == Filter(a, keep) + Filter(b, keep)
  {
    if |a| > 0 {
      assert (a + b)[1..] == a[1..] + b;
      FilterAppend(a[1..], b, keep);
    } else {
      assert a + b == b;
    }
  }

  /** When no element passes, filtering leaves nothing. */
  lemma {:induction false} FilterNonePass<T(!new)>(s: seq<T>, keep: T -> bool)
    requires forall i :: 0 <= i < |s| ==> !keep(s[i])
    ensures Filter(s, keep) == []
  {
    if |s| > 0 {
      FilterNonePass(s[1..], keep);
    }
  }

  /** When every element passes, filtering returns the input unchanged. */
  lemma {:induction false} FilterAllPass<T(!new)>(s: seq<T>, keep: T -> bool)
    requires forall i :: 0 <= i < |s| ==> keep(s[i])
    ensures Filter(s, keep) == s
  {
    if |s| > 0 {
      FilterAllPass(s[1..], keep);
    }
  }

  /** `s.map(f).filter(Boolean)` where `f` answers null for dropped elements. */
  function FilterMap<T, U>(s: seq<T>, f: T -> Option<U>): (r: seq<U>)
    ensures |r| <= |s|
    ensures forall i :: 0 <= i < |s| && f(s[i]).Some? ==> f(s[i]).value in r
  {
    if |s| == 0 then []
    else
      var rest := FilterMap(s[1..], f);
      assert forall i :: 1 <= i < |s| ==> s[i] == s[1..][i - 1];
      match f(s[0])
      case Some(y) => [y] + rest
      case None => rest
  }

  /** FilterMap distributes over concatenation (order is kept). */
  lemma {:induction false} FilterMapAppend<T, U>(a: seq<T>, b: seq<T>, f: T -> Option<U>)
    ensures FilterMap(a + b, f) == FilterMap(a, f) + FilterMap(b, f)
  {
    if |a| > 0 {
      assert (a + b)[1..] == a[1..] + b;
      FilterMapAppend(a[1..], b, f);
    } else {
      assert a + b == b;
    }
  }
}
