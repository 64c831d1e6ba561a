/** The one-off catalogue script scripts/add_examples_to_leetcode_problems.js:
    every `Input:` line and every `Output:` line of a problem description is
    collected, and the two lists are paired by position into the problem's
    `examples`. Reading and writing the JSON file is left out; the script is
    a function from problems to problems. */
module ExampleExtraction {

  import opened Wrappers
  import opened JsStrings
  import opened Problems
  import Seqs

  const InputKey := "Input:"
  const OutputKey := "Output:"
  const ExplanationKey := "Explanation:"
  const NoteKey := "Note:"

  // ---------------------------------------------------------------------------
  // Scanning with a global regular expression
  // ---------------------------------------------------------------------------

  /** The first occurrence of `key` at or after `from`. */
  function FindFrom(s: string, key: string, from: nat): (r: Option<nat>)
    requires from <= |s|
    ensures r.Some? ==> from <= r.value && OccursAt(s, key, r.value)
    ensures r.Some? ==> forall k :: from <= k < r.value ==> !OccursAt(s, key, k)
    ensures r.None? ==> forall k :: from <= k <= |s| ==> !OccursAt(s, key, k)
    decreases |s| - from
  {
    if OccursAt(s, key, from) then Some(from)
    else if from == |s| then None
    else FindFrom(s, key, from + 1)
  }

  /** The end of the run of characters from `from` that `stop` does not
      reject: `[^...]*` taken greedily. */
  function RunEnd(s: string, from: nat, stop: char -> bool): (j: nat)
    requires from <= |s|
    ensures from <= j <= |s|
    ensures j < |s| ==> stop(s[j])
    ensures forall k :: from <= k < j ==> !stop(s[k])
    decreases |s| - from
  {
    if from == |s| || stop(s[from]) then from else RunEnd(s, from + 1, stop)
  }

  /** The captures of `/key([^stop]*)/g`, scanning from `from`: each match
      consumes its line, and the search resumes where the match ended. */
  function Captures(s: string, key: string, stop: char -> bool, from: nat): (r: seq<string>)
    requires |key| > 0 && from <= |s|
    ensures forall i, k :: 0 <= i < |r| && 0 <= k < |r[i]| ==> !stop(r[i][k]) && r[i][k] in s
    decreases |s| - from
  {
    match FindFrom(s, key, from)
    case None => []
    case Some(i) =>
      var j := RunEnd(s, i + |key|, stop);
      var rest := Captures(s, key, stop, j);
      [s[i + |key|..j]] + rest
  }

  /** The text a match of `/key([^stop]*)/` at `k` captures: from the end of
      the key up to the first stop character or the end of the text. */
  function RunAfterKey(s: string, key: string, stop: char -> bool, k: nat): string
    requires k + |key| <= |s|
  {
    s[k + |key|..RunEnd(s, k + |key|, stop)]
  }

  /** `c` is what a match of the key at or after `from` captures. */
  predicate FollowsKey(s: string, key: string, stop: char -> bool, from: nat, c: string) {
    exists k :: from <= k <= |s| && OccursAt(s, key, k) && c == RunAfterKey(s, key, stop, k)
  }

  /** The search finds something iff the key occurs, and the first capture
      belongs to the leftmost occurrence. */
  lemma CapturesFollowKey(s: string, key: string, stop: char -> bool, from: nat)
    requires |key| > 0 && from <= |s|
    ensures var r := Captures(s, key, stop, from);
            && (|r| > 0 <==> exists k :: from <= k <= |s| && OccursAt(s, key, k))
            && (|r| > 0 ==> exists k :: && from <= k <= |s| && OccursAt(s, key, k)
                                       && (forall m :: from <= m < k ==> !OccursAt(s, key, m))
                                       && r[0] == RunAfterKey(s, key, stop, k))
  {
    match FindFrom(s, key, from)
    case None =>
    case Some(i) =>
      assert Captures(s, key, stop, from)[0] == RunAfterKey(s, key, stop, i);
  }

  /** Every capture is the rest of the line after some occurrence of the key
      at or after the starting point. */
  lemma {:induction false} EveryCaptureFollowsKey(s: string, key: string, stop: char -> bool, from: nat)
    requires |key| > 0 && from <= |s|
    ensures forall i :: 0 <= i < |Captures(s, key, stop, from)| ==>
              FollowsKey(s, key, stop, from, Captures(s, key, stop, from)[i])
    decreases |s| - from
  {
    match FindFrom(s, key, from)
    case None =>
    case Some(i) =>
      var j := RunEnd(s, i + |key|, stop);
      var rest := Captures(s, key, stop, j);
      var r := Captures(s, key, stop, from);
      EveryCaptureFollowsKey(s, key, stop, j);
      assert r == [RunAfterKey(s, key, stop, i)] + rest;
      forall n | 0 <= n < |r| ensures FollowsKey(s, key, stop, from, r[n]) {
        if n == 0 {
          assert OccursAt(s, key, i);
        } else {
          assert FollowsKey(s, key, stop, j, rest[n - 1]);
          var k :| j <= k <= |s| && OccursAt(s, key, k) && rest[n - 1] == RunAfterKey(s, key, stop, k);
          assert from <= k;
        }
      }
  }

  /** Where the matches of `/key([^stop]*)/g` start, scanning from `from`:
      the positions `Captures` reads its captures at. */
  function MatchStarts(s: string, key: string, stop: char -> bool, from: nat): (ks: seq<nat>)
    requires |key| > 0 && from <= |s|
    ensures forall i :: 0 <= i < |ks| ==> from <= ks[i] && ks[i] + |key| <= |s|
    decreases |s| - from
  {
    match FindFrom(s, key, from)
    case None => []
    case Some(i) => [i] + MatchStarts(s, key, stop, RunEnd(s, i + |key|, stop))
  }

  /** The end of the match of the key at `k`. */
  function MatchEnd(s: string, key: string, stop: char -> bool, k: nat): nat
    requires k + |key| <= |s|
  {
    RunEnd(s, k + |key|, stop)
  }

  /** The global scan captures every match, in order: the `i`-th capture is
      read at the `i`-th match start, each match ends before the next one
      starts, and every occurrence of the key at or after `from` lies in
      some match — it is that match's start, or the match swallowed it. */
  lemma CapturesAreAllMatches(s: string, key: string, stop: char -> bool, from: nat)
    requires |key| > 0 && from <= |s|
    ensures var r, ks := Captures(s, key, stop, from), MatchStarts(s, key, stop, from);
            && |ks| == |r|
            && (forall i :: 0 <= i < |ks| ==> OccursAt(s, key, ks[i]) && r[i] == RunAfterKey(s, key, stop, ks[i]))
            && (forall i :: 0 <= i < |ks| - 1 ==> MatchEnd(s, key, stop, ks[i]) <= ks[i + 1])
            && Covers(s, key, stop, from, ks)
  {
    CapturesAtMatchStarts(s, key, stop, from);
    MatchesInOrder(s, key, stop, from);
    MatchesCoverOccurrences(s, key, stop, from);
  }

  lemma {:induction false} CapturesAtMatchStarts(s: string, key: string, stop: char -> bool, from: nat)
    requires |key| > 0 && from <= |s|
    ensures var r, ks := Captures(s, key, stop, from), MatchStarts(s, key, stop, from);
            && |ks| == |r|
            && forall i :: 0 <= i < |ks| ==> OccursAt(s, key, ks[i]) && r[i] == RunAfterKey(s, key, stop, ks[i])
    decreases |s| - from
  {
    match FindFrom(s, key, from)
    case None =>
    case Some(m) =>
      var j := MatchEnd(s, key, stop, m);
      CapturesAtMatchStarts(s, key, stop, j);
      assert Captures(s, key, stop, from) == [RunAfterKey(s, key, stop, m)] + Captures(s, key, stop, j);
      assert MatchStarts(s, key, stop, from) == [m] + MatchStarts(s, key, stop, j);
  }

  lemma {:induction false} MatchesInOrder(s: string, key: string, stop: char -> bool, from: nat)
    requires |key| > 0 && from <= |s|
    ensures forall i :: 0 <= i < |MatchStarts(s, key, stop, from)| - 1 ==>
              MatchEnd(s, key, stop, MatchStarts(s, key, stop, from)[i]) <= MatchStarts(s, key, stop, from)[i + 1]
    decreases |s| - from
  {
    match FindFrom(s, key, from)
    case None =>
    case Some(m) =>
      var j := MatchEnd(s, key, stop, m);
      MatchesInOrder(s, key, stop, j);
      var ks, ks' := MatchStarts(s, key, stop, from), MatchStarts(s, key, stop, j);
      assert ks == [m] + ks';
      forall i | 0 <= i < |ks| - 1 ensures MatchEnd(s, key, stop, ks[i]) <= ks[i + 1] {
        if i == 0 {
          assert ks[1] == ks'[0] && j <= ks'[0];
        } else {
          assert ks[i] == ks'[i - 1] && ks[i + 1] == ks'[i];
        }
      }
  }

  /** Every occurrence of the key at or after `from` lies in a match. */
  predicate Covers(s: string, key: string, stop: char -> bool, from: nat, ks: seq<nat>)
    requires forall i :: 0 <= i < |ks| ==> ks[i] + |key| <= |s|
  {
    forall k :: from <= k <= |s| && OccursAt(s, key, k) ==>
      exists i :: 0 <= i < |ks| && ks[i] <= k < MatchEnd(s, key, stop, ks[i])
  }

  lemma {:induction false} MatchesCoverOccurrences(s: string, key: string, stop: char -> bool, from: nat)
    requires |key| > 0 && from <= |s|
    ensures Covers(s, key, stop, from, MatchStarts(s, key, stop, from))
    decreases |s| - from
  {
    match FindFrom(s, key, from)
    case None =>
    case Some(m) =>
      var j := MatchEnd(s, key, stop, m);
      var ks' := MatchStarts(s, key, stop, j);
      assert MatchStarts(s, key, stop, from) == [m] + ks';
      MatchesCoverOccurrences(s, key, stop, j);
      CoverStep(s, key, stop, from, m, ks');
  }

  /** The step of the scan: the leftmost match, then matches covering what
      follows its end. */
  lemma CoverStep(s: string, key: string, stop: char -> bool, from: nat, m: nat, ks': seq<nat>)
    requires m + |key| <= |s| && from <= m
    requires forall k :: from <= k < m ==> !OccursAt(s, key, k)
    requires forall i :: 0 <= i < |ks'| ==> ks'[i] + |key| <= |s|
    requires Covers(s, key, stop, MatchEnd(s, key, stop, m), ks')
    ensures Covers(s, key, stop, from, [m] + ks')
  {
    var j := MatchEnd(s, key, stop, m);
    var ks := [m] + ks';
    forall k | from <= k <= |s| && OccursAt(s, key, k)
      ensures exists i :: 0 <= i < |ks| && ks[i] <= k < MatchEnd(s, key, stop, ks[i])
    {
      if k < j {
        assert ks[0] <= k < MatchEnd(s, key, stop, ks[0]);
      } else {
        var i' :| 0 <= i' < |ks'| && ks'[i'] <= k < MatchEnd(s, key, stop, ks'[i']);
        assert ks[i' + 1] == ks'[i'];
      }
    }
  }

  predicate IsNewline(c: char) {
    c == '\n'
  }

  predicate IsNewlineOrReturn(c: char) {
    c == '\n' || c == '\r'
  }

  // ---------------------------------------------------------------------------
  // extractAllExamples
  // ---------------------------------------------------------------------------

  /** The trimmed rest of every `Input:` line. */
  function Inputs(d: string): (r: seq<string>)
    ensures forall i :: 0 <= i < |r| ==> IsTrimmed(r[i]) && '\n' !in r[i]
    ensures forall i :: 0 <= i < |r| ==>
              exists k :: OccursAt(d, InputKey, k) && r[i] == Trim(RunAfterKey(d, InputKey, IsNewline, k))
  {
    var caps := Captures(d, InputKey, IsNewline, 0);
    var r := Seqs.Map(Trim, caps);
    EveryCaptureFollowsKey(d, InputKey, IsNewline, 0);
    forall i | 0 <= i < |r|
      ensures '\n' !in r[i]
      ensures exists k :: OccursAt(d, InputKey, k) && r[i] == Trim(RunAfterKey(d, InputKey, IsNewline, k))
    {
      NoCharSurvivesTrim(caps[i], '\n');
      assert FollowsKey(d, InputKey, IsNewline, 0, caps[i]);
    }
    r
  }

  /** A character absent from a string is absent from its trimmed form. */
  lemma NoCharSurvivesTrim(s: string, c: char)
    requires c !in s
    ensures c !in Trim(s)
  {
    TrimChars(s);
    var r := Trim(s);
    forall i | 0 <= i < |r| ensures r[i] != c {
      assert r[i] == s[TrimOffset(s) + i];
    }
  }

  /** `out.replace(/(Explanation:|Note:).*\/, '')`: the first occurrence of
      either keyword is removed together with the rest of its line (`.`
      stops at any line terminator). */
  function CutNote(out: string): (r: string)
    ensures (forall k :: 0 <= k <= |out| ==> !KeywordAt(out, k)) ==> r == out
    ensures forall i :: 0 <= i <= |out| && KeywordAt(out, i) && LeftmostKeyword(out, i) ==>
              r == out[..i] + out[RunEnd(out, i, IsLineTerminator)..]
  {
    match FirstKeyword(out, 0)
    case None => out
    case Some(i) => out[..i] + out[RunEnd(out, i, IsLineTerminator)..]
  }

  /** No keyword starts before `i`. */
  predicate LeftmostKeyword(s: string, i: int) {
    forall k :: 0 <= k < i ==> !KeywordAt(s, k)
  }

  predicate KeywordAt(s: string, i: int) {
    OccursAt(s, ExplanationKey, i) || OccursAt(s, NoteKey, i)
  }

  /** The leftmost position where either keyword starts. */
  function FirstKeyword(s: string, from: nat): (r: Option<nat>)
    requires from <= |s|
    ensures r.Some? ==> from <= r.value < |s| && KeywordAt(s, r.value)
    ensures r.Some? ==> forall k :: from <= k < r.value ==> !KeywordAt(s, k)
    ensures r.None? ==> forall k :: from <= k <= |s| ==> !KeywordAt(s, k)
    decreases |s| - from
  {
    if KeywordAt(s, from) then Some(from)
    else if from == |s| then None
    else FirstKeyword(s, from + 1)
  }

  /** The trimmed rest of every `Output:` line, cut at the first keyword and
      trimmed again. */
  function Outputs(d: string): (r: seq<string>)
    ensures forall i :: 0 <= i < |r| ==> IsTrimmed(r[i])
    ensures forall i :: 0 <= i < |r| ==>
              exists k :: OccursAt(d, OutputKey, k) && r[i] == OutputValue(RunAfterKey(d, OutputKey, IsNewlineOrReturn, k))
  {
    var caps := Captures(d, OutputKey, IsNewlineOrReturn, 0);
    var r := Seqs.Map(OutputValue, caps);
    EveryCaptureFollowsKey(d, OutputKey, IsNewlineOrReturn, 0);
    forall i | 0 <= i < |r|
      ensures exists k :: OccursAt(d, OutputKey, k) && r[i] == OutputValue(RunAfterKey(d, OutputKey, IsNewlineOrReturn, k))
    {
      assert FollowsKey(d, OutputKey, IsNewlineOrReturn, 0, caps[i]);
    }
    r
  }

  /** The value of one `Output:` capture. On a capture without line
      terminators (the usual case) it is the trimmed text before the first
      keyword, or the whole trimmed capture when there is no keyword. */
  function OutputValue(capture: string): (r: string)
    ensures IsTrimmed(r)
    ensures NoTerminator(capture) ==>
              var t := Trim(capture);
              && ((forall k :: 0 <= k <= |t| ==> !KeywordAt(t, k)) ==> r == t)
              && (forall i :: 0 <= i <= |t| && KeywordAt(t, i) && LeftmostKeyword(t, i) ==> r == Trim(t[..i]))
  {
    var t := Trim(capture);
    TrimOfTrimmed(t);
    CutNoteOfLine(capture);
    Trim(CutNote(t))
  }

  predicate NoTerminator(s: string) {
    forall i :: 0 <= i < |s| ==> !IsLineTerminator(s[i])
  }

  /** On a trimmed line without terminators the cut keeps exactly the text
      before the first keyword. */
  lemma CutNoteOfLine(capture: string)
    ensures NoTerminator(capture) ==>
              var t := Trim(capture);
              forall i :: 0 <= i <= |t| && KeywordAt(t, i) && LeftmostKeyword(t, i) ==> CutNote(t) == t[..i]
  {
    if NoTerminator(capture) {
      var t := Trim(capture);
      SliceHasNoTerminator(capture);
      forall i | 0 <= i <= |t| && KeywordAt(t, i) && LeftmostKeyword(t, i) ensures CutNote(t) == t[..i] {
        assert RunEnd(t, i, IsLineTerminator) == |t|;
        assert t[|t|..] == [];
      }
    }
  }

  /** The first loop of the script reads every `Input:` match in order:
      the `i`-th input is the trimmed capture of the `i`-th match, and every
      occurrence of `Input:` lies in one of the matches. */
  lemma InputsAreAllMatches(d: string)
    ensures var ks := MatchStarts(d, InputKey, IsNewline, 0);
            && |Inputs(d)| == |ks|
            && (forall i :: 0 <= i < |ks| ==>
                  OccursAt(d, InputKey, ks[i]) && Inputs(d)[i] == Trim(RunAfterKey(d, InputKey, IsNewline, ks[i])))
            && (forall i :: 0 <= i < |ks| - 1 ==> MatchEnd(d, InputKey, IsNewline, ks[i]) <= ks[i + 1])
            && Covers(d, InputKey, IsNewline, 0, ks)
  {
    CapturesAreAllMatches(d, InputKey, IsNewline, 0);
  }

  /** The second loop reads every `Output:` match in order: the `i`-th
      output is the value of the capture of the `i`-th match. */
  lemma OutputsAreAllMatches(d: string)
    ensures var ks := MatchStarts(d, OutputKey, IsNewlineOrReturn, 0);
            && |Outputs(d)| == |ks|
            && (forall i :: 0 <= i < |ks| ==>
                  OccursAt(d, OutputKey, ks[i]) && Outputs(d)[i] == OutputValue(RunAfterKey(d, OutputKey, IsNewlineOrReturn, ks[i])))
            && (forall i :: 0 <= i < |ks| - 1 ==> MatchEnd(d, OutputKey, IsNewlineOrReturn, ks[i]) <= ks[i + 1])
            && Covers(d, OutputKey, IsNewlineOrReturn, 0, ks)
  {
    CapturesAreAllMatches(d, OutputKey, IsNewlineOrReturn, 0);
  }

  /** The script makes as many examples as the smaller of the numbers of
      `Input:` and `Output:` matches, and the `i`-th example pairs the `i`-th
      match of each. */
  lemma ExamplesPairMatches(d: string)
    ensures var ins, outs := MatchStarts(d, InputKey, IsNewline, 0), MatchStarts(d, OutputKey, IsNewlineOrReturn, 0);
            && |ExtractAllExamples(d)| == (if |ins| < |outs| then |ins| else |outs|)
            && forall i :: 0 <= i < |ExtractAllExamples(d)| ==>
                 ExtractAllExamples(d)[i]
                   == Example(Trim(RunAfterKey(d, InputKey, IsNewline, ins[i])),
                              OutputValue(RunAfterKey(d, OutputKey, IsNewlineOrReturn, outs[i])))
  {
    InputsAreAllMatches(d);
    OutputsAreAllMatches(d);
  }

  /** `extractAllExamples(description)`: inputs and outputs paired by
      position, as many as the shorter list. */
  function ExtractAllExamples(d: string): (r: seq<Example>)
    ensures |r| == (if |Inputs(d)| < |Outputs(d)| then |Inputs(d)| else |Outputs(d)|)
    ensures forall i :: 0 <= i < |r| ==> r[i] == Example(Inputs(d)[i], Outputs(d)[i])
  {
    var ins := Inputs(d);
    var outs := Outputs(d);
    var n := if |ins| < |outs| then |ins| else |outs|;
    seq(n, i requires 0 <= i < n => Example(ins[i], outs[i]))
  }

  /** A description without `Input:` or without `Output:` gives no
      examples. */
  lemma NoKeyNoExamples(d: string)
    requires forall k :: 0 <= k <= |d| ==> !OccursAt(d, InputKey, k)
    ensures ExtractAllExamples(d) == []
  {
    CapturesFollowKey(d, InputKey, IsNewline, 0);
  }

  /** When the captured line holds no line terminator, the output value
      contains neither keyword: the cut removes everything from the first
      one on. */
  lemma OutputHasNoKeyword(capture: string)
    requires forall i :: 0 <= i < |capture| ==> !IsLineTerminator(capture[i])
    ensures forall k :: !KeywordAt(OutputValue(capture), k)
  {
    var t := Trim(capture);
    SliceHasNoTerminator(capture);
    var cut := CutNote(t);
    match FirstKeyword(t, 0)
    case None =>
      assert cut == t;
      NoKeywordInSlice(t, 0, |t|);
    case Some(i) =>
      assert RunEnd(t, i, IsLineTerminator) == |t|;
      assert cut == t[..i] + [];
      assert cut == t[0..i];
      NoKeywordInSlice(t, 0, i);
    NoKeywordSurvivesTrim(cut);
  }

  /** In a description without the separators U+2028 and U+2029, no output
      value contains `Explanation:` or `Note:`. */
  lemma OutputsHaveNoKeyword(d: string)
    requires '\U{2028}' !in d && '\U{2029}' !in d
    ensures forall i, k :: 0 <= i < |Outputs(d)| ==> !KeywordAt(Outputs(d)[i], k)
  {
    var caps := Captures(d, OutputKey, IsNewlineOrReturn, 0);
    forall i | 0 <= i < |caps| ensures forall k :: !KeywordAt(OutputValue(caps[i]), k) {
      OutputHasNoKeyword(caps[i]);
    }
  }

  /** A trimmed line keeps the absence of line terminators. */
  lemma SliceHasNoTerminator(s: string)
    requires forall i :: 0 <= i < |s| ==> !IsLineTerminator(s[i])
    ensures forall i :: 0 <= i < |Trim(s)| ==> !IsLineTerminator(Trim(s)[i])
  {
    TrimChars(s);
  }

  /** A keyword inside `s[a..b]` is a keyword of `s`, so a window before
      the first keyword holds none. */
  lemma NoKeywordInSlice(s: string, a: nat, b: nat)
    requires a <= b <= |s|
    requires forall k :: a <= k < b ==> !KeywordAt(s, k)
    ensures forall k :: !KeywordAt(s[a..b], k)
  {
    forall k | KeywordAt(s[a..b], k) ensures false {
      assert |ExplanationKey| > 0 && |NoteKey| > 0;
      if OccursAt(s[a..b], ExplanationKey, k) {
        OccursInSlice(s, a, b, ExplanationKey, k);
        assert KeywordAt(s, a + k);
      } else {
        OccursInSlice(s, a, b, NoteKey, k);
        assert KeywordAt(s, a + k);
      }
    }
  }

  lemma NoKeywordSurvivesTrim(s: string)
    requires forall k :: !KeywordAt(s, k)
    ensures forall k :: !KeywordAt(Trim(s), k)
  {
    var k := TrimOffset(s);
    NoKeywordInSliceOf(s, k, k + |Trim(s)|);
  }

  lemma NoKeywordInSliceOf(s: string, a: nat, b: nat)
    requires a <= b <= |s|
    requires forall k :: !KeywordAt(s, k)
    ensures forall k :: !KeywordAt(s[a..b], k)
  {
    NoKeywordInSlice(s, a, b);
  }

  // ---------------------------------------------------------------------------
  // The update loop
  // ---------------------------------------------------------------------------

  /** One step of the loop: a problem with a truthy description gets its
      extracted examples and loses the single-example fields; any other
      problem is left as it was. */
  function UpdateProblem(p: Problem): (r: Problem)
    ensures !Truthy(p.description) ==> r == p
    ensures Truthy(p.description) ==>
              && r.examples == Some(ExtractAllExamples(p.description.value))
              && r.exampleInput.None? && r.exampleOutput.None?
    ensures r.id == p.id && r.title == p.title && r.difficulty == p.difficulty
    ensures r.description == p.description && r.relatedTopics == p.relatedTopics
  {
    if Truthy(p.description) then
      p.(examples := Some(ExtractAllExamples(p.description.value)), exampleInput := None, exampleOutput := None)
    else p
  }

  /** The whole script on the parsed file. */
  function UpdateAll(problems: seq<Problem>): (r: seq<Problem>)
    ensures |r| == |problems|
    ensures forall i :: 0 <= i < |r| ==> r[i] == UpdateProblem(problems[i])
  {
    Seqs.Map(UpdateProblem, problems)
  }

  /** Running the script a second time changes nothing. */
  lemma UpdateAllIdempotent(problems: seq<Problem>)
    ensures UpdateAll(UpdateAll(problems)) == UpdateAll(problems)
  {
    var once := UpdateAll(problems);
    forall i | 0 <= i < |once| ensures UpdateProblem(once[i]) == once[i] {
      var p := problems[i];
      if Truthy(p.description) {
        assert once[i] == p.(examples := Some(ExtractAllExamples(p.description.value)), exampleInput := None, exampleOutput := None);
      }
    }
  }
}
