/** The data side of ui-helpers.js: the sorted list of unique topics, the
    topic tags shown under a problem, and the classes of a problem list
    item. The DOM elements themselves are reduced to their class and text. */
module UiHelpers {

  import opened Wrappers
  import opened JsStrings
  import opened Problems
  import Seqs

  // ---------------------------------------------------------------------------
  // The order of `Array.prototype.sort` on strings
  // ---------------------------------------------------------------------------

  /** `a` sorts before `b`: a proper prefix comes first, otherwise the first
      differing character decides. */
  predicate Less(a: string, b: string) {
    if |a| == 0 then |b| > 0
    else if |b| == 0 then false
    else a[0] < b[0] || (a[0] == b[0] && Less(a[1..], b[1..]))
  }

  lemma {:induction false} LessIrreflexive(a: string)
    ensures !Less(a, a)
  {
    if |a| > 0 {
      LessIrreflexive(a[1..]);
    }
  }

  lemma {:induction false} LessTransitive(a: string, b: string, c: string)
    requires Less(a, b) && Less(b, c)
    ensures Less(a, c)
  {
    if |a| > 0 && |b| > 0 && |c| > 0 && a[0] == b[0] && b[0] == c[0] {
      LessTransitive(a[1..], b[1..], c[1..]);
    }
  }

  /** Any two different strings are ordered one way or the other. */
  lemma {:induction false} LessTotal(a: string, b: string)
    ensures a == b || Less(a, b) || Less(b, a)
  {
    if |a| > 0 && |b| > 0 && a[0] == b[0] {
      LessTotal(a[1..], b[1..]);
      if a[1..] == b[1..] {
        assert a == [a[0]] + a[1..];
        assert b == [b[0]] + b[1..];
      }
    }
  }

  /** Sorted and free of duplicates. */
  predicate StrictlySorted(s: seq<string>) {
    forall i, j :: 0 <= i < j < |s| ==> Less(s[i], s[j])
  }

  function Elements(s: seq<string>): set<string> {
    set t | t in s
  }

  /** A string below every element of a sorted list can go in front. */
  lemma ConsSorted(x: string, s: seq<string>)
    requires StrictlySorted(s)
    requires forall t :: t in s ==> Less(x, t)
    ensures StrictlySorted([x] + s)
  {
    forall i, j | 0 <= i < j < |[x] + s|
      ensures Less(([x] + s)[i], ([x] + s)[j])
    {
      assert ([x] + s)[j] == s[j - 1];
      if i > 0 {
        assert ([x] + s)[i] == s[i - 1];
      }
    }
  }

  /** Add one string to a sorted list, keeping it sorted and duplicate-free. */
  function Insert(x: string, s: seq<string>): (r: seq<string>)
    requires StrictlySorted(s)
    ensures StrictlySorted(r)
    ensures Elements(r) == Elements(s) + {x}
  {
    if |s| == 0 then [x]
    else if x == s[0] then
      assert Elements(s) + {x} == Elements(s);
      s
    else if Less(x, s[0]) then
      forall t | t in s ensures Less(x, t) {
        if t != s[0] {
          LessTransitive(x, s[0], t);
        }
      }
      ConsSorted(x, s);
      assert Elements([x] + s) == Elements(s) + {x};
      [x] + s
    else
      LessTotal(x, s[0]);
      assert s == [s[0]] + s[1..];
      var rest := Insert(x, s[1..]);
      forall t | t in rest ensures Less(s[0], t) {
        assert t in Elements(rest);
      }
      ConsSorted(s[0], rest);
      assert Elements([s[0]] + rest) == {s[0]} + Elements(rest);
      [s[0]] + rest
  }

  /** `Array.from(new Set(xs)).sort()`. */
  function SortUnique(xs: seq<string>): (r: seq<string>)
    ensures StrictlySorted(r)
    ensures Elements(r) == Elements(xs)
  {
    if |xs| == 0 then []
    else
      var n := |xs|;
      assert xs == xs[..n - 1] + [xs[n - 1]];
      assert Elements(xs) == Elements(xs[..n - 1]) + {xs[n - 1]};
      Insert(xs[n - 1], SortUnique(xs[..n - 1]))
  }

  /** A sorted duplicate-free list is determined by its elements. */
  lemma {:induction false} SortedByElements(a: seq<string>, b: seq<string>)
    requires StrictlySorted(a) && StrictlySorted(b)
    requires Elements(a) == Elements(b)
    ensures a == b
  {
    if |a| > 0 {
      assert a[0] in Elements(b);
      assert |b| > 0;
      assert b[0] in Elements(a);
      if a[0] != b[0] {
        var i :| 0 <= i < |a| && a[i] == b[0];
        var j :| 0 <= j < |b| && b[j] == a[0];
        LessTransitive(a[0], b[0], a[0]);
        LessIrreflexive(a[0]);
      }
      forall t ensures t in Elements(a[1..]) <==> t in Elements(b[1..]) {
        if t in Elements(a[1..]) {
          var i :| 0 <= i < |a[1..]| && a[1..][i] == t;
          assert Less(a[0], a[i + 1]);
          LessIrreflexive(t);
          assert t in Elements(b) && t != b[0];
        }
        if t in Elements(b[1..]) {
          var i :| 0 <= i < |b[1..]| && b[1..][i] == t;
          assert Less(b[0], b[i + 1]);
          LessIrreflexive(t);
          assert t in Elements(a) && t != a[0];
        }
      }
      SortedByElements(a[1..], b[1..]);
      assert a == [a[0]] + a[1..];
      assert b == [b[0]] + b[1..];
    } else {
      NoElementsIsEmpty(b);
    }
  }

  lemma NoElementsIsEmpty(s: seq<string>)
    ensures Elements(s) == {} <==> s == []
  {
    if |s| > 0 {
      assert s[0] in Elements(s);
    }
  }

  // ---------------------------------------------------------------------------
  // extractUniqueTopics
  // ---------------------------------------------------------------------------

  /** The trimmed, non-empty comma pieces of a problem's topics string. */
  function TopicsOf(p: Problem): seq<string> {
    match TopicsString(p)
    case None => []
    case Some(ts) => Seqs.Filter(Seqs.Map(Trim, Split(ts, ',')), NonEmpty)
  }

  /** JavaScript truthiness of a string. */
  predicate NonEmpty(t: string) {
    t != ""
  }

  /** `t` is a trimmed, non-empty comma piece of `ts`. */
  predicate IsTopicPiece(ts: string, t: string) {
    t != "" && exists k :: 0 <= k < |Split(ts, ',')| && Trim(Split(ts, ',')[k]) == t
  }

  /** Each topic of a problem is a trimmed, non-empty comma piece of its
      topics string, and every such piece is one. */
  lemma TopicsOfMembers(p: Problem, t: string)
    ensures t in TopicsOf(p) <==> TopicsString(p).Some? && IsTopicPiece(TopicsString(p).value, t)
  {
    match TopicsString(p)
    case None =>
    case Some(ts) => TrimmedPiecesMembers(ts, t);
  }

  lemma TrimmedPiecesMembers(ts: string, t: string)
    ensures t in Seqs.Filter(Seqs.Map(Trim, Split(ts, ',')), NonEmpty) <==> IsTopicPiece(ts, t)
  {
    var pieces := Split(ts, ',');
    var trimmed := Seqs.Map(Trim, pieces);
    var kept := Seqs.Filter(trimmed, NonEmpty);
    if t in kept {
      var k :| 0 <= k < |trimmed| && trimmed[k] == t;
      assert Trim(pieces[k]) == t;
    }
    if IsTopicPiece(ts, t) {
      var k :| 0 <= k < |pieces| && Trim(pieces[k]) == t;
      assert trimmed[k] == t && NonEmpty(trimmed[k]);
    }
  }

  /** Every problem's topics, in problem order. */
  function AllTopics(problems: seq<Problem>): seq<string> {
    Seqs.FlatMap(TopicsOf, problems)
  }

  lemma AllTopicsMembers(problems: seq<Problem>, t: string)
    ensures t in AllTopics(problems) <==> exists i :: 0 <= i < |problems| && t in TopicsOf(problems[i])
  {
    Seqs.FlatMapMembers(TopicsOf, problems, t);
  }

  /** `extractUniqueTopics(problems)`. */
  function UniqueTopics(problems: seq<Problem>): (r: seq<string>)
    ensures StrictlySorted(r)
  {
    SortUnique(AllTopics(problems))
  }

  /** A topic is listed iff it is a trimmed, non-empty comma piece of some
      problem's topics string; so every listed topic is trimmed and
      non-empty. */
  lemma UniqueTopicsMembers(problems: seq<Problem>, t: string)
    ensures t in UniqueTopics(problems) <==> exists i :: 0 <= i < |problems| && t in TopicsOf(problems[i])
    ensures t in UniqueTopics(problems) ==> t != "" && IsTrimmed(t)
  {
    AllTopicsMembers(problems, t);
    assert t in UniqueTopics(problems) <==> t in Elements(AllTopics(problems));
    if t in UniqueTopics(problems) {
      var i :| 0 <= i < |problems| && t in TopicsOf(problems[i]);
      TopicsOfMembers(problems[i], t);
    }
  }

  lemma AllTopicsAppend(a: seq<Problem>, b: seq<Problem>)
    ensures AllTopics(a + b) == AllTopics(a) + AllTopics(b)
  {
    Seqs.FlatMapAppend(TopicsOf, a, b);
  }

  /** A problem without a truthy topics string adds nothing. */
  lemma NoTopicsAddNothing(problems: seq<Problem>, p: Problem)
    requires TopicsString(p).None?
    ensures UniqueTopics(problems + [p]) == UniqueTopics(problems)
  {
    AllTopicsAppend(problems, [p]);
    assert [p][..0] == [];
    assert AllTopics([p]) == AllTopics([]) + TopicsOf(p);
    assert AllTopics(problems) + [] == AllTopics(problems);
  }

  /** The list does not depend on the order of the problems. */
  lemma UniqueTopicsIgnoreOrder(a: seq<Problem>, b: seq<Problem>)
    ensures UniqueTopics(a + b) == UniqueTopics(b + a)
  {
    AllTopicsAppend(a, b);
    AllTopicsAppend(b, a);
    var x := AllTopics(a);
    var y := AllTopics(b);
    assert Elements(x + y) == Elements(x) + Elements(y);
    assert Elements(y + x) == Elements(y) + Elements(x);
    SortedByElements(UniqueTopics(a + b), UniqueTopics(b + a));
  }

  // ---------------------------------------------------------------------------
  // createTopicsElement / createTopicTag
  // ---------------------------------------------------------------------------

  /** A `span` tag: its class and its text. */
  datatype Tag = Tag(cssClass: string, text: string)

  /** `createTopicTag(topic, isMoreIndicator)`: a topic is trimmed, the
      "more" indicator is not. */
  function TopicTag(topic: string, isMore: bool): (t: Tag)
    ensures t.cssClass == (if isMore then "topic-tag more" else "topic-tag")
    ensures isMore ==> t.text == topic
    ensures !isMore ==> IsTrimmed(t.text)
  {
    if isMore then Tag("topic-tag more", topic) else Tag("topic-tag", Trim(topic))
  }

  /** A topic tag's text is the topic with the white space at both ends
      removed and nothing else; the "more" tag keeps its text verbatim. */
  lemma TopicTagText(topic: string, isMore: bool)
    ensures var t := TopicTag(topic, isMore);
            && (isMore ==> t.text == topic)
            && (!isMore ==> IsTrimOf(t.text, topic))
  {
    TrimCharacterised(topic, Trim(topic));
  }

  /** `createTopicsElement(topicsString)`: `None` for an absent or empty
      string; otherwise a tag for each of the first three comma pieces and,
      past three pieces, a "+n" tag counting the rest. */
  function TopicTags(topicsString: Option<string>): (r: Option<seq<Tag>>)
    ensures r.None? <==> !Truthy(topicsString)
    ensures r.Some? ==>
              var pieces := Split(topicsString.value, ',');
              && |r.value| == (if |pieces| > 3 then 4 else |pieces|)
              && (forall i :: 0 <= i < |r.value| && i < 3 ==> r.value[i] == Tag("topic-tag", Trim(pieces[i])))
              && (|pieces| > 3 ==> r.value[3] == Tag("topic-tag more", "+" + NatToString(|pieces| - 3)))
  {
    if !Truthy(topicsString) then None
    else
      var pieces := Split(topicsString.value, ',');
      var first := if |pieces| > 3 then pieces[..3] else pieces;
      var shown := Seqs.Map(t => TopicTag(t, false), first);
      assert forall i :: 0 <= i < |shown| ==> shown[i] == Tag("topic-tag", Trim(pieces[i]));
      if |pieces| > 3 then
        var more := TopicTag("+" + NatToString(|pieces| - 3), true);
        assert (shown + [more])[3] == more;
        Some(shown + [more])
      else Some(shown)
  }

  /** How many topics a row of tags stands for: the tags themselves, or
      three plus the number in the "+n" tag. */
  function TopicsShown(tags: seq<Tag>): nat {
    if |tags| == 4 && |tags[3].text| >= 1 && forall i :: 1 <= i < |tags[3].text| ==> '0' <= tags[3].text[i] <= '9'
    then 3 + DigitsValue(tags[3].text[1..])
    else |tags|
  }

  /** The tags account for every comma piece: reading the "+n" tag back
      gives the number of pieces. */
  lemma TagsAccountForAllTopics(topicsString: string)
    requires topicsString != ""
    ensures var tags := TopicTags(Some(topicsString)).value;
            TopicsShown(tags) == |Split(topicsString, ',')|
  {
    var pieces := Split(topicsString, ',');
    var tags := TopicTags(Some(topicsString)).value;
    if |pieces| > 3 {
      var digits := NatToString(|pieces| - 3);
      assert tags[3].text == "+" + digits;
      assert tags[3].text[1..] == digits;
      NatToStringRoundTrip(|pieces| - 3);
    }
  }

  // ---------------------------------------------------------------------------
  // createProblemListItem
  // ---------------------------------------------------------------------------

  /** The classes of the list item at `index`. */
  function ListItemClasses(index: int, isCompleted: bool): (r: set<string>)
    ensures "problem-item" in r
    ensures "active" in r <==> index == 0
    ensures "completed" in r <==> isCompleted
    ensures r <= {"problem-item", "active", "completed"}
  {
    {"problem-item"} + (if index == 0 then {"active"} else {}) + (if isCompleted then {"completed"} else {})
  }

  /** The classes of a rendered list, given which problems are completed. */
  function ListClasses(problems: seq<Problem>, completed: int -> bool): (r: seq<set<string>>)
    ensures |r| == |problems|
    ensures forall i :: 0 <= i < |problems| ==> r[i] == ListItemClasses(i, completed(problems[i].id))
  {
    seq(|problems|, i requires 0 <= i < |problems| => ListItemClasses(i, completed(problems[i].id)))
  }

  /** In a non-empty list exactly the first item is active, and an item is
      marked completed exactly when its problem is. */
  lemma OneActiveItem(problems: seq<Problem>, completed: int -> bool)
    ensures var r := ListClasses(problems, completed);
            && (forall i :: 0 <= i < |r| ==> ("active" in r[i] <==> i == 0))
            && (forall i :: 0 <= i < |r| ==> ("completed" in r[i] <==> completed(problems[i].id)))
            && (|r| > 0 ==> |set i | 0 <= i < |r| && "active" in r[i]| == 1)
  {
    var r := ListClasses(problems, completed);
    if |r| > 0 {
      assert (set i | 0 <= i < |r| && "active" in r[i]) == {0};
    }
  }
}
