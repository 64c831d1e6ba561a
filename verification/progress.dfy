/** The progress record of progress-tracker.js: which problems are marked
    completed and the submissions made for each, keyed by problem id. Every
    operation of the source loads the record from browser storage, changes it
    and stores it back; here each operation is a function from record to
    record, and storage is the `Stored` value handed to `Load`. */
module Progress {

  import opened Wrappers

  /** One entry of a problem's submission history (its timestamp left out). */
  datatype Submission = Submission(code: string, isCorrect: bool)

  /** `{completedProblems, submissionHistory}`. */
  datatype Record = Record(completed: map<int, bool>, history: map<int, seq<Submission>>)

  /** What browser storage holds under the progress key: nothing, text that
      does not parse, or a parsed record. */
  datatype Stored = Nothing | Unparsable | Parsed(record: Record)

  /** `initializeProgressData`: nothing completed, nothing submitted. */
  function Fresh(): (r: Record)
    ensures forall id :: !IsCompleted(r, id) && GetHistory(r, id) == []
  {
    Record(map[], map[])
  }

  /** `loadUserProgress`: the stored record, or a fresh one when nothing is
      stored or what is stored does not parse. */
  function Load(stored: Stored): (r: Record)
    ensures stored.Parsed? ==> r == stored.record
    ensures !stored.Parsed? ==> CompletedCount(r) == 0 && AttemptedCount(r) == 0
  {
    match stored
    case Parsed(rec) => rec
    case _ => FreshCounts(); Fresh()
  }

  /** `isProblemCompleted`: `!!completedProblems[id]`, so an absent id reads as
      not completed. */
  function IsCompleted(r: Record, id: int): (b: bool)
    ensures id !in r.completed ==> !b
    ensures b <==> id in CompletedIds(r)
  {
    id in r.completed && r.completed[id]
  }

  /** `getSubmissionHistory`: the list for `id`, or the empty list. */
  function GetHistory(r: Record, id: int): (h: seq<Submission>)
    ensures id !in r.history ==> h == []
    ensures id in r.history ==> h == r.history[id]
  {
    if id in r.history then r.history[id] else []
  }

  /** `markProblemCompleted(id, isCompleted)`. */
  function MarkCompleted(r: Record, id: int, isCompleted: bool): (r': Record)
    ensures IsCompleted(r', id) == isCompleted
    ensures forall other :: other != id ==> IsCompleted(r', other) == IsCompleted(r, other)
    ensures r'.history == r.history
  {
    r.(completed := r.completed[id := isCompleted])
  }

  /** `addSubmissionToHistory(id, code, isCorrect)`: one submission appended to
      the problem's list (created when absent); a correct one also marks the
      problem completed. */
  function AddSubmission(r: Record, id: int, code: string, isCorrect: bool): (r': Record)
    ensures GetHistory(r', id) == GetHistory(r, id) + [Submission(code, isCorrect)]
    ensures forall other :: other != id ==> GetHistory(r', other) == GetHistory(r, other)
    ensures IsCompleted(r', id) == (isCorrect || IsCompleted(r, id))
    ensures forall other :: other != id ==> IsCompleted(r', other) == IsCompleted(r, other)
  {
    var list := if id in r.history then r.history[id] else [];
    var history := r.history[id := list + [Submission(code, isCorrect)]];
    var completed := if isCorrect then r.completed[id := true] else r.completed;
    Record(completed, history)
  }

  /** The problems whose stored flag is `true`. */
  function CompletedIds(r: Record): set<int> {
    set id | id in r.completed && r.completed[id]
  }

  /** `getCompletedCount`: how many stored flags are `true`. */
  function CompletedCount(r: Record): (n: nat)
    ensures n <= |r.completed.Keys|
    ensures n == 0 <==> forall id :: !IsCompleted(r, id)
  {
    SubsetCard(CompletedIds(r), r.completed.Keys);
    NoneCompletedIff(r);
    |CompletedIds(r)|
  }

  lemma NoneCompletedIff(r: Record)
    ensures |CompletedIds(r)| == 0 <==> forall id :: !IsCompleted(r, id)
  {
    if |CompletedIds(r)| != 0 {
      var id := Pick(CompletedIds(r));
      assert IsCompleted(r, id);
    } else {
      forall id ensures !IsCompleted(r, id) {
        assert id !in CompletedIds(r);
      }
    }
  }

  lemma NoneAttemptedIff(r: Record)
    ensures |r.history.Keys| == 0 <==> forall id :: id !in r.history
  {
    if |r.history.Keys| != 0 {
      var id := Pick(r.history.Keys);
      assert id in r.history;
    } else {
      forall id ensures id !in r.history {
        assert id !in r.history.Keys;
      }
    }
  }

  lemma Pick(s: set<int>) returns (x: int)
    requires |s| != 0
    ensures x in s
  {
    if forall y :: y !in s {
      assert false;
    }
    x :| x in s;
  }

  lemma SubsetCard<T>(a: set<T>, b: set<T>)
    requires a <= b
    ensures |a| <= |b|
  {
    assert b == a + (b - a);
  }

  /** `getAttemptedCount`: how many problems have a history list, whatever
      the outcome of their submissions. */
  function AttemptedCount(r: Record): (n: nat)
    ensures n == 0 <==> forall id :: id !in r.history
  {
    NoneAttemptedIff(r);
    |r.history.Keys|
  }

  lemma FreshCounts()
    ensures CompletedCount(Fresh()) == 0 && AttemptedCount(Fresh()) == 0
  {
    assert CompletedIds(Fresh()) == {};
  }

  /** Marking changes the completed count by at most one, in the direction of
      the new flag. */
  lemma MarkCompletedCount(r: Record, id: int, isCompleted: bool)
    ensures CompletedCount(MarkCompleted(r, id, isCompleted)) ==
              CompletedCount(r)
              + (if isCompleted && !IsCompleted(r, id) then 1 else 0)
              - (if !isCompleted && IsCompleted(r, id) then 1 else 0)
  {
    var r' := MarkCompleted(r, id, isCompleted);
    if isCompleted {
      assert CompletedIds(r') == CompletedIds(r) + {id};
    } else {
      assert CompletedIds(r') == CompletedIds(r) - {id};
    }
  }

  /** A submission counts its problem as attempted (once), and raises the
      completed count exactly when it is the first correct one. */
  lemma AddSubmissionCounts(r: Record, id: int, code: string, isCorrect: bool)
    ensures var r' := AddSubmission(r, id, code, isCorrect);
            && AttemptedCount(r') == AttemptedCount(r) + (if id in r.history then 0 else 1)
            && CompletedCount(r') == CompletedCount(r) + (if isCorrect && !IsCompleted(r, id) then 1 else 0)
  {
    var r' := AddSubmission(r, id, code, isCorrect);
    assert r'.history.Keys == r.history.Keys + {id};
    CompletedIdsAfterSubmission(r, id, code, isCorrect);
    var before, after := CompletedIds(r), CompletedIds(r');
    if isCorrect && !IsCompleted(r, id) {
      assert id !in before;
      assert |after| == |before| + 1;
    } else if isCorrect {
      assert id in before;
      assert after == before;
    } else {
      assert after == before;
    }
  }

  lemma CompletedIdsAfterSubmission(r: Record, id: int, code: string, isCorrect: bool)
    ensures CompletedIds(AddSubmission(r, id, code, isCorrect))
              == CompletedIds(r) + (if isCorrect then {id} else {})
  {
  }

}
