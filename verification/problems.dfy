/** The problem records of the catalogue (`leetcode_problems.json`), as the
    problem service, the Python runner, the chat service and the example
    extraction script see them. Absent JSON fields are `None`. */
module Problems {

  import opened Wrappers

  /** One worked example: the text after `Input:` and after `Output:`. */
  datatype Example = Example(input: string, output: string)

  /** A catalogue entry. `relatedTopics` holds the JSON array
      `related_topics`, whose first element is a comma-separated topic list;
      `exampleInput`/`exampleOutput` are the single-example fields that the
      extraction script replaces by `examples`. */
  datatype Problem = Problem(
    id: int,
    title: string,
    difficulty: string,
    description: Option<string>,
    relatedTopics: Option<seq<string>>,
    examples: Option<seq<Example>>,
    exampleInput: Option<string>,
    exampleOutput: Option<string>)

  /** JavaScript truthiness of an optional string: present and not empty. */
  predicate Truthy(s: Option<string>) {
    s.Some? && s.value != ""
  }

  /** `related_topics[0]` when the array exists, is non-empty and its first
      element is truthy; `None` otherwise. */
  function TopicsString(p: Problem): (r: Option<string>)
    ensures r.Some? <==>
              p.relatedTopics.Some? && |p.relatedTopics.value| > 0 && p.relatedTopics.value[0] != ""
    ensures r.Some? ==> r.value == p.relatedTopics.value[0]
  {
    match p.relatedTopics
    case None => None
    case Some(ts) => if |ts| > 0 && ts[0] != "" then Some(ts[0]) else None
  }
}
