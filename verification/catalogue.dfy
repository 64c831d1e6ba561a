/** The problem service of problem-service.js, without its DOM work: the
    loaded problems, the current problem and the topic list; problem lookup,
    topic extraction and the difficulty/topic filter. */
module Catalogue {

  import opened Wrappers
  import opened JsStrings
  import opened Problems
  import Seqs
  import UiHelpers

  /** The module state `problemsData`, `currentProblem` and `allTopics`. */
  datatype Catalogue = Catalogue(problems: seq<Problem>, current: Option<Problem>, topics: seq<string>)

  // ---------------------------------------------------------------------------
  // selectProblem
  // ---------------------------------------------------------------------------

  /** The index of the first problem with id `id`, as `find` scans. */
  function FindIndex(problems: seq<Problem>, id: int): (r: Option<nat>)
    ensures r.Some? ==> r.value < |problems| && problems[r.value].id == id
    ensures r.Some? ==> forall k :: 0 <= k < r.value ==> problems[k].id != id
    ensures r.None? ==> forall k :: 0 <= k < |problems| ==> problems[k].id != id
  {
    if |problems| == 0 then None
    else if problems[0].id == id then Some(0)
    else
      match FindIndex(problems[1..], id)
      case None => None
      case Some(k) => Some(k + 1)
  }

  /** `selectProblem(id)`: the first problem with that id becomes current and
      is returned; with none, nothing changes and null is returned. */
  function SelectProblem(c: Catalogue, id: int): (r: (Catalogue, Option<Problem>))
    ensures r.1.None? <==> forall k :: 0 <= k < |c.problems| ==> c.problems[k].id != id
    ensures r.1.None? ==> r.0 == c
    ensures r.1.Some? ==>
              && r.1.value.id == id
              && r.0 == c.(current := r.1)
              && exists k :: 0 <= k < |c.problems| && c.problems[k] == r.1.value
                             && forall j :: 0 <= j < k ==> c.problems[j].id != id
  {
    match FindIndex(c.problems, id)
    case None => (c, None)
    case Some(k) => (c.(current := Some(c.problems[k])), Some(c.problems[k]))
  }

  /** Selecting twice is selecting once. */
  lemma SelectIdempotent(c: Catalogue, id: int)
    ensures var (c1, p1) := SelectProblem(c, id);
            SelectProblem(c1, id) == (c1, p1)
  {
  }

  // ---------------------------------------------------------------------------
  // extractTopics
  // ---------------------------------------------------------------------------

  /** `extractTopics`: the same rule as `extractUniqueTopics`, applied to the
      loaded problems. */
  function ExtractTopics(c: Catalogue): (r: Catalogue)
    ensures r.problems == c.problems && r.current == c.current
    ensures UiHelpers.StrictlySorted(r.topics)
  {
    c.(topics := UiHelpers.UniqueTopics(c.problems))
  }

  /** After extraction, a topic is listed iff some loaded problem has it. */
  lemma ExtractTopicsMembers(c: Catalogue, t: string)
    ensures t in ExtractTopics(c).topics <==>
              exists i :: 0 <= i < |c.problems| && t in UiHelpers.TopicsOf(c.problems[i])
  {
    UiHelpers.UniqueTopicsMembers(c.problems, t);
  }

  // ---------------------------------------------------------------------------
  // filterProblems
  // ---------------------------------------------------------------------------

  /** The difficulty filter: the lower-cased difficulty must equal the
      argument, which is itself not lower-cased. */
  predicate DifficultyMatches(difficulty: string, p: Problem) {
    ToLower(p.difficulty) == difficulty
  }

  /** The piece, trimmed and lower-cased (twice, as written), contains the
      lower-cased argument. */
  predicate PieceIncludes(needle: string, piece: string) {
    Includes(ToLower(ToLower(Trim(piece))), needle)
  }

  /** The topic filter: the problem has a truthy topics string and one of its
      pieces contains the topic, ignoring ASCII case. */
  predicate TopicMatches(topic: string, p: Problem) {
    match TopicsString(p)
    case None => false
    case Some(ts) => Seqs.Any(Split(ts, ','), piece => PieceIncludes(ToLower(topic), piece))
  }

  /** `filterProblems(difficulty, topic)`: either filter is skipped when its
      argument is `all`. */
  function FilterProblems(problems: seq<Problem>, difficulty: string, topic: string): (r: seq<Problem>)
    ensures |r| <= |problems|
    ensures difficulty == "all" && topic == "all" ==> r == problems
  {
    var byDifficulty := if difficulty != "all" then Seqs.Filter(problems, p => DifficultyMatches(difficulty, p)) else problems;
    if topic != "all" then Seqs.Filter(byDifficulty, p => TopicMatches(topic, p)) else byDifficulty
  }

  /** What the filter keeps. */
  predicate Kept(difficulty: string, topic: string, p: Problem) {
    (difficulty == "all" || DifficultyMatches(difficulty, p)) && (topic == "all" || TopicMatches(topic, p))
  }

  /** A problem is in the result iff it is loaded and passes both filters. */
  lemma FilterProblemsMembers(problems: seq<Problem>, difficulty: string, topic: string, p: Problem)
    ensures p in FilterProblems(problems, difficulty, topic) <==> p in problems && Kept(difficulty, topic, p)
  {
  }

  /** The result keeps the loaded order. */
  lemma FilterProblemsKeepsOrder(problems: seq<Problem>, difficulty: string, topic: string)
    ensures Seqs.IsSubsequence(FilterProblems(problems, difficulty, topic), problems)
  {
    var byDifficulty := if difficulty != "all" then Seqs.Filter(problems, p => DifficultyMatches(difficulty, p)) else problems;
    if difficulty != "all" {
      Seqs.FilterIsSubsequence(problems, p => DifficultyMatches(difficulty, p));
    } else {
      Seqs.SubsequenceReflexive(problems);
    }
    if topic != "all" {
      Seqs.FilterIsSubsequence(byDifficulty, p => TopicMatches(topic, p));
      Seqs.SubsequenceTransitive(FilterProblems(problems, difficulty, topic), byDifficulty, problems);
    }
  }

  /** A difficulty argument holding an upper-case letter matches nothing. */
  lemma CapitalisedDifficultyMatchesNothing(problems: seq<Problem>, difficulty: string, i: nat)
    requires i < |difficulty| && 'A' <= difficulty[i] <= 'Z'
    ensures FilterProblems(problems, difficulty, "all") == []
  {
    forall q: Problem ensures !DifficultyMatches(difficulty, q) {
      LowerHasNoCapitals(q.difficulty);
    }
    Seqs.FilterNonePass(problems, p => DifficultyMatches(difficulty, p));
  }

  lemma LowerHasNoCapitals(s: string)
    ensures forall j :: 0 <= j < |ToLower(s)| ==> !('A' <= ToLower(s)[j] <= 'Z')
  {
  }

  /** A problem without a truthy topics string never passes a topic filter. */
  lemma NoTopicsNeverMatch(problems: seq<Problem>, difficulty: string, topic: string, p: Problem)
    requires topic != "all" && TopicsString(p).None?
    ensures p !in FilterProblems(problems, difficulty, topic)
  {
    FilterProblemsMembers(problems, difficulty, topic, p);
  }

  /** The topic test holds iff some trimmed piece contains the topic,
      both lower-cased. */
  lemma SomePieceIncludesIff(pieces: seq<string>, needle: string)
    ensures Seqs.Any(pieces, piece => PieceIncludes(needle, piece)) <==>
              exists k :: 0 <= k < |pieces| && Includes(ToLower(Trim(pieces[k])), needle)
  {
    Seqs.AnyIff(pieces, piece => PieceIncludes(needle, piece));
    forall k | 0 <= k < |pieces|
      ensures PieceIncludes(needle, pieces[k]) == Includes(ToLower(Trim(pieces[k])), needle)
    {
      ToLowerIdempotent(Trim(pieces[k]));
    }
  }
}
