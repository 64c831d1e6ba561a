# CodeTeach core, modelled in Dafny

CodeTeach is a browser application for practising LeetCode-style problems.
A student picks a problem from a filterable catalogue, writes Python in an
editor, runs it against the problem's worked examples in an in-browser
interpreter, and can ask a locally loaded language model for hints,
approaches, explanations and optimisations. This project models the logic
under the DOM and library plumbing, as pure functions over immutable
sequences, strings and maps:

- `InputParser` (input_parser.dfy): the example-input scanner of the Python
  runner, `safeSplit` and `parseInputAssignments`. `InputParserExamples`
  (parser_examples.dfy) holds worked examples on catalogue-shaped inputs.
- `TestHarness` (test_harness.dfy): `runWithExamples` and the Run and Submit
  buttons. The interpreter is an `Executor` parameter, a function from a
  program text and a capture flag to `{stdout, stderr}`.
- `ChatSession` (chat_session.dfy): the conversation-context manager of
  the chat service. It keeps the stored history, the running summary and the
  NONE/IN_PROGRESS/DONE flag, and it covers `addMessage`, `getLLMSummary`,
  the summarisation step, the prompt window, `sendMessage` and
  `clearChatHistory`. The model is an `Llm` parameter, a function from a
  request to the stream of deltas it answers with.
- `ChatActions` (chat_actions.dfy): the hint counter and its request
  tiers, the approach, explain and optimize requests, and the typed-input
  submission. It also delivers each request to the chat session.
- `Catalogue` (catalogue.dfy): the problem service. It covers problem lookup,
  topic extraction and the difficulty and topic filter.
- `UiHelpers` (ui_helpers.dfy): the sorted unique topic list, the
  first-three-plus-"+n" topic tags, and the classes of a problem list item.
- `Progress` (progress.dfy): the progress record. It maps each problem to its
  completion flag and its submission history.
- `ExampleExtraction` (example_extraction.dfy): the catalogue script that
  collects every `Input:` and `Output:` line of a description and pairs them
  by position.
- Shared support: `Problems` (problem records), `JsStrings` (the JavaScript
  string built-ins used: `trim`, `split`, `join`, `includes`, `replace`,
  case mapping, decimal formatting), `Seqs` (map, filter, flat-map, `some`,
  subsequences) and `Wrappers` (`Option`).

Where the code and its own documentation disagree, the model follows the code:

- The scanner's bracket depth counts only `[`/`{` and `]`/`}`. Parentheses do not change it.
- A hidden request still gets its streamed response `div` in the chat panel.
  Only the request itself, and the second copy of the answer, stay hidden.
- The summarisation flag ends at DONE, not at NONE. DONE does not block later rounds.
- A submission passes when no example wrote anything but white space to
  stderr. Expected and actual output are never compared.

## Model

| member | source | states |
|---|---|---|
| `InputParser.StepCutsAtSeparators` | python-runner.js:176-195 | one loop iteration cuts a trimmed piece and restarts after the comma exactly at a top-level comma; at any other character it only advances the quote/depth state |
| `InputParser.Scan` | python-runner.js:171-196 | the start of the current piece never passes the scanned prefix |
| `InputParser.TrimAll` | python-runner.js:193 | every piece is replaced by its trimmed text, position for position |
| `InputParser.SafeSplit` | python-runner.js:169-204 | an empty string splits into no pieces, and every piece is trimmed |
| `InputParser.SafeSplitIsPieces` | python-runner.js:170-204 | `safeSplit` returns exactly the trimmed texts between consecutive top-level separators, plus the tail only when it is non-empty |
| `InputParser.Cuts` | python-runner.js:191-195 | the cut positions are increasing and are exactly the separator commas of the scanned prefix |
| `InputParser.ScanMatchesCuts` | python-runner.js:176-196 | after any prefix the scanner's pieces are the trimmed texts between the cuts, its start is after the last cut, and its lexical state is the one the prefix leads to |
| `InputParser.PiecesJoin` | python-runner.js:191-201 | rejoining the untrimmed pieces with commas gives the input back, except that a trailing separator comma leaves no empty last piece |
| `InputParser.JoinPiecesAt` | python-runner.js:193-201 | the pieces between any increasing comma positions rejoin to the text, short of a final comma at the very end |
| `InputParser.JoinInner` | python-runner.js:193 | the first m pieces joined by commas are the text up to the m-th cut |
| `InputParser.Inner` | python-runner.js:193 | the first m pieces are the texts between consecutive cuts |
| `InputParser.NestedCommaIsNoSeparator` | python-runner.js:191 | a comma cuts iff it is read at depth zero outside every quote, so a comma at non-zero (even negative) depth never cuts |
| `InputParser.QuotedSectionIsOpaque` | python-runner.js:179-186 | a quote opened at top level and closed by the same unescaped quote character hides every comma inside it, and leaves the depth as it was |
| `InputParser.InsideQuote` | python-runner.js:179-183 | until a matching quote character appears, the scanner stays inside the quote at the depth it had when the quote opened |
| `InputParser.BracketedSectionIsOpaque` | python-runner.js:187-191 | a balanced quote-free bracketed section opened at non-negative depth hides its commas and restores the depth after the closing bracket |
| `InputParser.InsideBrackets` | python-runner.js:187-190 | inside quote-free text after an opening bracket, the depth is one more than at the bracket plus the net bracket balance read so far |
| `InputParser.PyValueWithoutKeywords` | python-runner.js:214-219 | a value holding no `null`, `true` or `false` passes the rewrite unchanged, list or scalar |
| `InputParser.PyValue` | python-runner.js:214-219 | a value that does not both start with `[` and end with `]` is kept as it is; a list value comes out holding no `null`, `true` or `false`, not even inside a word, has the same length, has `None`, `True`, `False` exactly where `null`, `true`, `false` stood, and every other character unchanged |
| `InputParser.KeywordsReplacedInPlace` | python-runner.js:217-218 | the three chained global replacements keep the length, write `None`/`True`/`False` at each position where `null`/`true`/`false` occurred, and leave every character outside those occurrences as it was |
| `JsStrings.ReplaceAllPointwise` | python-runner.js:218 | replacing every occurrence of a pattern that cannot overlap itself by a text of the same length keeps the length, writes the replacement at each occurrence and keeps every character outside an occurrence |
| `InputParser.KeywordsRewritten` | python-runner.js:218 | the three replacements in sequence leave no occurrence of any of the three keywords, because no written `None`, `True` or `False` can overlap one |
| `JsStrings.ReplaceAllLeavesNone` | python-runner.js:218 | replacing every occurrence of a pattern by a text that cannot overlap a word leaves no occurrence of that word, when the word is the pattern itself or did not occur before |
| `InputParser.ParseSegment` | python-runner.js:209-221 | a piece without `=` is dropped; otherwise the name is the trimmed text before the first `=` and the value the rewritten trimmed text between the first and second `=` |
| `InputParser.ParseInputAssignments` | python-runner.js:165-227 | an absent or empty input gives the empty program |
| `InputParser.ParseInputAssignmentsLines` | python-runner.js:166-227 | an absent or empty input gives the empty program; otherwise one `name = value` line per top-level piece holding `=`, in order, joined by newlines |
| `InputParserExamples.TargetSum` | python-runner.js:170-204 | `nums = [2,7,11,15], target = 9` splits into its two assignments; the commas inside the list do not cut |
| `InputParserExamples.NestedListArgument` | python-runner.js:187-195 | a nested list argument stays one piece |
| `InputParserExamples.TwoArguments` | python-runner.js:191-201 | two unspaced assignments split at the comma between them |
| `InputParserExamples.QuotedComma` | python-runner.js:179-186 | a comma inside a quoted string does not cut |
| `InputParserExamples.NegativeDepth` | python-runner.js:189-191 | after an unmatched `]` the depth is negative and no later comma cuts |
| `InputParserExamples.TrailingComma` | python-runner.js:199-201 | a trailing comma adds no empty last piece |
| `TestHarness.TestProgramsDistinct` | python-runner.js:280-281 | the test programs of two different examples differ, whatever their inputs, because each opens with its own case number |
| `TestHarness.NumberedTextsDiffer` | python-runner.js:281 | texts opening with the same header and two different decimal numbers, each ended by a newline, differ |
| `TestHarness.NumberThenNewline` | python-runner.js:281 | in a text that starts with a decimal number and a newline, the number is everything before the first newline |
| `TestHarness.RunProgram` | python-runner.js:253-257 | the run program opens with the first example's assignment lines between newlines and ends with the user code on a line of its own |
| `TestHarness.TestProgram` | python-runner.js:280-300 | the test program of an example opens with its numbered case comment and ends with the user code followed by the report postlude |
| `TestHarness.RunAll` | python-runner.js:275-320 | submit mode executes every example once, in order, without stopping early, and records each example with its own stdout and stderr |
| `TestHarness.RunWithExamples` | python-runner.js:236-330 | run mode makes one captured execution, of the first example's assignments then the code, or of the code alone when there are no examples; submit mode returns null without examples, else clears the output and returns one result per example; another mode returns undefined |
| `TestHarness.AllTestsPassed` | python-runner.js:378 | the submission passes iff every result's stderr is empty or white space |
| `TestHarness.OnRun` | python-runner.js:341-355 | blank editor text runs nothing and shows a notice; otherwise exactly one execution, with the first example's assignments when the problem has examples |
| `TestHarness.OnSubmit` | python-runner.js:359-402 | blank text or no examples runs nothing and leaves progress unchanged; otherwise every example runs, and for a problem with a truthy id exactly one submission is appended whose verdict is "no example wrote to stderr", the problem becomes completed iff it passed or already was, and no other problem changes |
| `ChatSession.AddMessage` | llm-service.js:234-271 | the panel gains the message unless hidden; the history gains a user turn for `user`, an assistant turn for `ai` and `assistant`, and nothing for `system`; summary, flag and requests are untouched |
| `ChatSession.AccumulateAppend` | llm-service.js:298-302 | the streamed text of more chunks extends the text received so far |
| `ChatSession.GetLLMSummary` | llm-service.js:278-307 | the summary is empty without a model and always trimmed |
| `ChatSession.SummaryKeepsPartialText` | llm-service.js:291-306 | a stream that fails after some chunks still yields their trimmed text |
| `ChatSession.FirstUser` | llm-service.js:340-345 | the oldest user turn: a user turn with only assistant turns before it |
| `ChatSession.NextAssistant` | llm-service.js:347-350 | the first assistant turn after the given index, passing over intervening user turns, or the history length when there is none |
| `ChatSession.RemoveOldestPair` | llm-service.js:344-358 | what leaves the history is one of its user turns and, when there is one, one of its assistant turns |
| `ChatSession.RemoveOldestPairShrinks` | llm-service.js:344-358 | the step removes one user turn and at most one assistant turn, shrinks the history by one or two, and keeps the rest in order |
| `ChatSession.RemoveOne` | llm-service.js:357-358 | removing one turn lowers the user count by one exactly when it is a user turn |
| `ChatSession.AppendSummary` | llm-service.js:365-367 | the new summary is the answer when there was none, else the old summary, a newline and the answer; the old summary is always a prefix |
| `ChatSession.Summarize` | llm-service.js:340-369 | the step fires iff more than three user turns are stored and no summarisation is in progress; then exactly one summary request is made, one user turn leaves, the rest stays in order, the old summary is a prefix of the new, and the flag ends at DONE; otherwise nothing changes |
| `ChatSession.SummarySectionIffSummary` | llm-service.js:372-376 | the summarised-history section is in the system prompt iff the summary is non-empty, and then it holds the header followed by the summary |
| `ChatSession.Window` | llm-service.js:379-401 | up to six turns go verbatim after the system prompt; beyond six, a summary system message and exactly the last six turns follow; never more than eight messages |
| `ChatSession.WindowRequests` | llm-service.js:387-392 | the window makes its own summary request exactly when more than six turns are stored |
| `ChatSession.Sent` | llm-service.js:387-413 | a response makes one request, or two with more than six turns, and the last is the main request |
| `ChatSession.RespondEffects` | llm-service.js:405-429 | the assistant turn is stored only when the stream ends without failure; the panel gains the streamed `div`, then the error notice or, for a visible request, the answer again |
| `ChatSession.ResponseShown` | llm-service.js:330-429 | the response adds one or two panel entries, the first being the streamed `div` with the received text |
| `ChatSession.SendMessage` | llm-service.js:316-317 | an empty message or a missing model changes nothing |
| `ChatSession.Prepare` | llm-service.js:320-369 | storing the user turn and summarising makes at most one request, after the earlier ones, and only extends the summary |
| `ChatSession.Respond` | llm-service.js:405-429 | the response records exactly the requests sent, after the earlier ones, and leaves the summary and the summarisation flag as they were |
| `ChatSession.StreamFor` | llm-service.js:372-413 | without a problem nothing is received and the stream fails with the error of reading the missing title; with one, the stream is the model's answer to the main request |
| `ChatSession.SendMessageShows` | llm-service.js:316-435 | with a model and a message, the panel gains what storing the user turn shows, then the response; without a problem, the response is an empty `div` and the error notice |
| `ChatSession.ClearChatHistory` | llm-service.js:448-452 | history empty, summary empty, flag NONE; the panel is untouched |
| `ChatSession.SendMessageStoresTurns` | llm-service.js:316-429 | after `sendMessage` the history ends with the user turn, followed by the assistant turn exactly when the stream ended without failure |
| `ChatSession.PrepareEndsWithUser` | llm-service.js:320-369 | the user turn is stored before anything can fail, and the summarisation step does not remove it |
| `ChatSession.SummarizeKeepsLast` | llm-service.js:343-358 | the summarisation step never removes a newest turn that is a user turn |
| `ChatSession.RemovalKeepsLastUser` | llm-service.js:344-358 | with two or more user turns, the newest turn, a user turn, survives the removal |
| `ChatSession.FirstUserSplit` | llm-service.js:340-345 | every user turn except the oldest comes after it |
| `ChatSession.FailureShowsNotice` | llm-service.js:427-429 | a failed stream leaves the history as prepared and ends the panel with the streamed `div` and then the error notice |
| `ChatSession.HiddenRequestShowsOnlyResponse` | llm-service.js:316-425 | a hidden request whose stream succeeds adds exactly one panel entry, the streamed `div` |
| `ChatSession.VisibleAnswerShownTwice` | llm-service.js:316-425 | a visible request shows its text, the streamed `div`, then the same answer as an assistant message |
| `ChatSession.PrepareTranscript` | llm-service.js:320-369 | storing the user turn shows it unless hidden; summarising shows nothing |
| `ChatSession.SendMessageExtendsTranscript` | llm-service.js:316-435 | `sendMessage` only adds to the panel, after what storing the user turn showed |
| `ChatSession.HiddenSendTranscript` | llm-service.js:316-435 | a hidden request adds at most two panel entries, only the response `div` and the error notice |
| `ChatSession.HiddenResponseSenders` | llm-service.js:330-336 | a hidden response shows only `ai` and `system` entries |
| `ChatSession.ShowsWithoutProblem` | llm-service.js:372 | a call without a problem shows an empty response `div` and the error notice |
| `ChatSession.VisibleResponseShown` | llm-service.js:425 | a visible successful response shows the streamed `div` and the answer again |
| `ChatSession.SendMessageHistory` | llm-service.js:316-435 | with a model and a message, the history gains the assistant turn exactly when there is a problem and its stream ends without failure |
| `ChatSession.PairedLength` | llm-service.js:264-270 | a history in which every assistant turn follows a user turn holds at most twice as many turns as user turns |
| `ChatSession.PairedPrefix` | llm-service.js:264-270 | a prefix of a paired history is paired |
| `ChatSession.PairedSuffix` | llm-service.js:357-358 | a suffix starting with a user turn is paired |
| `ChatSession.PairedAfterUsers` | llm-service.js:357-358 | user turns followed by a paired history are paired |
| `ChatSession.RemovalKeepsPaired` | llm-service.js:344-358 | removing the oldest exchange keeps a paired history paired |
| `ChatSession.RemovalFromUserStart` | llm-service.js:344-358 | when the history starts with a user turn, the step takes it and the first assistant turn after it |
| `ChatSession.PairedAppend` | llm-service.js:264-270 | appending a user turn, or an assistant turn right after a user turn, keeps a history paired |
| `ChatSession.UserCountPush` | llm-service.js:340-342 | appending a turn adds one to the user count iff it is a user turn |
| `ChatSession.UserCountAppend` | llm-service.js:340-342 | the user count of two histories put together is the sum of their counts |
| `ChatSession.PrepareSteady` | llm-service.js:320-369 | from the steady state, storing and summarising leaves at most three user turns and six turns in all, ending with the new user turn |
| `ChatSession.SummarizeSteady` | llm-service.js:340-369 | from a paired history of at most four user turns ending in a user turn, summarising restores the steady state with at most six turns |
| `ChatSession.SendMessageKeepsSteady` | llm-service.js:316-435 | one `sendMessage` keeps the steady state: paired, at most three user turns, no summarisation in progress |
| `ChatSession.SteadyWindowIsVerbatim` | llm-service.js:381-397 | in steady use the main request carries the whole history verbatim after the system prompt, and one call makes at most two requests |
| `ChatSession.ClearIsSteady` | llm-service.js:448-452 | clearing restores the steady state |
| `ChatActions.HintClick` | chat-ui.js:16-36 | the counter goes up by one before the request is chosen, the request is the tier for the new count, and it is sent hidden |
| `ChatActions.ResetHintCount` | chat-ui.js:137-139 | the counter is zero and nothing else changes |
| `ChatActions.ResetThenHintIsBasic` | chat-ui.js:17-23 | after a reset the next hint is the basic conceptual one |
| `ChatActions.SelectProblemPanel` | problem-service.js:85-117 | selecting an existing problem after start-up sets the hint counter to 0 through the reset-code button; a miss, or the start-up selection before the listener exists, leaves the panel unchanged; the input box is never touched |
| `ChatActions.SelectThenHintIsBasic` | problem-service.js:94 | after start-up, the first hint following the selection of an existing problem is the basic one |
| `ChatActions.HintClicks` | chat-ui.js:16-36 | k clicks send k requests |
| `ChatActions.HintClicksProgress` | chat-ui.js:16-36 | k clicks advance the counter by k, and click i sends the tier for count `hintCount + i + 1`, hidden |
| `ChatActions.SourceHintsDistinguishable` | chat-ui.js:20-32 | the three fixed tiers differ in length and none starts like the numbered template |
| `ChatActions.HintRequestInjective` | chat-ui.js:20-32 | different counts select different requests |
| `ChatActions.FixedHintIsNotNumbered` | chat-ui.js:31 | a fixed tier is never a numbered request |
| `ChatActions.HintClicksDistinct` | chat-ui.js:16-36 | no hint request repeats between resets |
| `ChatActions.ApproachClick` | chat-ui.js:42-46 | the approach request is the fixed text, sent hidden |
| `ChatActions.ExplainClick` | chat-ui.js:52-58 | the explain request is sent hidden |
| `ChatActions.OptimizeClick` | chat-ui.js:64-70 | the optimize request is sent hidden |
| `ChatActions.ExplainEmbedsEditor` | chat-ui.js:54-55 | the explain request is the `python` fence around the editor text, or around the placeholder when the editor is empty, and the code reads back out of it |
| `ChatActions.OptimizeEmbedsEditor` | chat-ui.js:66-67 | the optimize request is a bare fence around the editor text or the placeholder, and the code reads back out of it |
| `ChatActions.FencedRoundTrip` | chat-ui.js:55 | the code inside a fenced request reads back exactly |
| `ChatActions.ExplainRequestsEqualIff` | chat-ui.js:54-55 | two explain requests are equal iff the editors held the same text, an empty editor counting as the placeholder |
| `ChatActions.EmptyEditorLooksLikePlaceholder` | chat-ui.js:54 | an empty editor sends the same request as an editor holding the placeholder |
| `ChatActions.SubmitInput` | chat-ui.js:76-88 | blank input sends nothing and leaves the box; otherwise the box is cleared and the text sent, visibly, is non-empty, has no white space at its ends and is a slice of the box with only white space around it, which by `JsStrings.TrimCharacterised` is exactly the trimmed box |
| `JsStrings.TrimCharacterised` | chat-ui.js:78 | a text is the trim of another iff it has no white space at its ends and is a slice of the other with only white space around it |
| `ChatActions.ButtonRequestShowsNoUserEntry` | chat-ui.js:35 | a button's hidden request never shows its own text; the panel gains at most the response `div` and a notice |
| `ChatActions.TypedInputShownFirst` | chat-ui.js:87 | typed input appears in the panel first, as a user message |
| `Catalogue.FindIndex` | problem-service.js:87 | the index of the first problem with the id, or none when no problem has it |
| `Catalogue.SelectProblem` | problem-service.js:85-104 | no match returns null and changes nothing; otherwise the first problem with the id becomes current and is returned |
| `Catalogue.SelectIdempotent` | problem-service.js:85-91 | selecting the same id twice is selecting it once |
| `Catalogue.ExtractTopics` | problem-service.js:146-167 | the topic list is sorted and duplicate-free, and the problems and the current problem are untouched |
| `Catalogue.ExtractTopicsMembers` | problem-service.js:146-167 | a topic is listed iff some loaded problem has it |
| `Catalogue.FilterProblems` | problem-service.js:175-200 | the result is no longer than the catalogue, and with both arguments `all` it is the catalogue |
| `Catalogue.FilterProblemsMembers` | problem-service.js:175-200 | a problem is kept iff it is loaded and passes both filters, each skipped for `all` |
| `Catalogue.FilterProblemsKeepsOrder` | problem-service.js:176-197 | the result is an order-preserving subsequence of the catalogue |
| `Catalogue.CapitalisedDifficultyMatchesNothing` | problem-service.js:179-183 | the argument is not lower-cased, so one holding a capital letter matches nothing |
| `Catalogue.NoTopicsNeverMatch` | problem-service.js:188-192 | a problem without a truthy first topics entry never passes a topic filter |
| `Catalogue.SomePieceIncludesIff` | problem-service.js:194-195 | the topic test holds iff some trimmed, lower-cased comma piece contains the lower-cased topic |
| `UiHelpers.LessIrreflexive` | ui-helpers.js:141 | no string sorts before itself |
| `UiHelpers.LessTransitive` | ui-helpers.js:141 | the sort order is transitive |
| `UiHelpers.LessTotal` | ui-helpers.js:141 | any two different strings are ordered one way or the other |
| `UiHelpers.ConsSorted` | ui-helpers.js:141 | a string below every element of a sorted list can go in front |
| `UiHelpers.Insert` | ui-helpers.js:123-141 | adding a topic to the sorted set keeps it sorted and duplicate-free and adds exactly that topic |
| `UiHelpers.SortUnique` | ui-helpers.js:141 | the result is sorted, duplicate-free, and holds exactly the elements of the input |
| `UiHelpers.SortedByElements` | ui-helpers.js:141 | a sorted duplicate-free list is determined by its elements |
| `UiHelpers.TopicsOfMembers` | ui-helpers.js:126-136 | a problem's topics are exactly the trimmed non-empty comma pieces of its truthy first topics entry |
| `UiHelpers.TrimmedPiecesMembers` | ui-helpers.js:129-134 | a kept piece is the trim of some comma piece, and every non-empty trimmed piece is kept |
| `UiHelpers.AllTopicsMembers` | ui-helpers.js:125-138 | a topic is collected iff some problem has it |
| `UiHelpers.UniqueTopics` | ui-helpers.js:122-142 | the result is sorted and duplicate-free |
| `UiHelpers.UniqueTopicsMembers` | ui-helpers.js:122-142 | a topic is listed iff some problem has it, and every listed topic is trimmed and non-empty |
| `UiHelpers.AllTopicsAppend` | ui-helpers.js:125-138 | the topics of two problem lists put together are their topics put together |
| `UiHelpers.NoTopicsAddNothing` | ui-helpers.js:126-128 | a problem with a missing or empty first topics entry adds nothing |
| `UiHelpers.UniqueTopicsIgnoreOrder` | ui-helpers.js:122-142 | the list does not depend on the order of the problems |
| `UiHelpers.TopicTag` | ui-helpers.js:12-17 | the class is `topic-tag more` for the "more" tag and `topic-tag` otherwise; the "more" tag shows the topic as given, any other tag a trimmed text |
| `UiHelpers.TopicTagText` | ui-helpers.js:15 | a "more" tag shows the topic itself; any other tag shows the topic without the white space at its ends, a slice of it with only white space around it |
| `UiHelpers.TopicTags` | ui-helpers.js:24-45 | no tags for an absent or empty string; otherwise the first three comma pieces trimmed, in order, then a "+n" tag with n the number of further pieces exactly when there are more than three |
| `UiHelpers.TagsAccountForAllTopics` | ui-helpers.js:38-42 | reading the "+n" tag back gives the number of pieces |
| `UiHelpers.ListItemClasses` | ui-helpers.js:78-87 | an item is always `problem-item`, `active` iff its index is 0, `completed` iff its problem is completed, and has no other class |
| `UiHelpers.ListClasses` | problem-service.js:70-77 | each rendered item gets the classes of its index and its problem's completion |
| `UiHelpers.OneActiveItem` | ui-helpers.js:80 | in a non-empty list exactly the first item is active |
| `Progress.Fresh` | progress-tracker.js:38-44 | a fresh record marks nothing completed and holds no submissions |
| `Progress.Load` | progress-tracker.js:21-32 | a parsed stored record is used as is; with nothing stored or unparsable text, the record counts nothing completed and nothing attempted |
| `Progress.IsCompleted` | progress-tracker.js:79-82 | an absent problem reads as not completed; a problem is completed iff its stored flag is `true` |
| `Progress.GetHistory` | progress-tracker.js:118-121 | the stored list of a problem that has one, otherwise the empty list |
| `Progress.CompletedCount` | progress-tracker.js:160-163 | the count is at most the number of stored flags, and zero iff no problem is completed |
| `Progress.AttemptedCount` | progress-tracker.js:169-172 | the count is zero iff no problem has a submission list |
| `Progress.FreshCounts` | progress-tracker.js:38-44 | a fresh record counts zero completed and zero attempted |
| `Progress.MarkCompleted` | progress-tracker.js:65-68 | only the flag of the given problem changes, to the given value; histories are untouched |
| `Progress.AddSubmission` | progress-tracker.js:90-111 | exactly one submission is appended to that problem's list, created when absent; a correct one marks it completed, an incorrect one never clears a completion; other problems are untouched |
| `Progress.MarkCompletedCount` | progress-tracker.js:160-163 | marking changes the completed count by at most one, in the direction of the new flag |
| `Progress.AddSubmissionCounts` | progress-tracker.js:160-172 | a submission counts its problem as attempted once, whatever its outcome, and raises the completed count exactly when it is the first correct one |
| `ExampleExtraction.FindFrom` | scripts/add_examples_to_leetcode_problems.js:19 | the search finds the leftmost occurrence of the key at or after the position, or reports that there is none |
| `ExampleExtraction.RunEnd` | scripts/add_examples_to_leetcode_problems.js:11-13 | the capture runs greedily up to the first stop character or the end |
| `ExampleExtraction.Captures` | scripts/add_examples_to_leetcode_problems.js:11-22 | no capture holds a stop character, and every captured character comes from the text; completeness and order are stated by `CapturesAreAllMatches` |
| `ExampleExtraction.CapturesAreAllMatches` | scripts/add_examples_to_leetcode_problems.js:11-22 | the global scan captures every match in order: there are match positions, one per capture, each an occurrence of the key at or after the start whose capture is the rest of its line; each match starts at or after the end of the previous one, and every occurrence of the key at or after the start is one of them or lies inside one |
| `ExampleExtraction.CapturesFollowKey` | scripts/add_examples_to_leetcode_problems.js:19-21 | something is captured iff the key occurs at or after the start position, and the first capture is the rest of the line after the leftmost such occurrence |
| `ExampleExtraction.EveryCaptureFollowsKey` | scripts/add_examples_to_leetcode_problems.js:11-22 | every capture is the text after some occurrence of the key at or after the start position, up to the first stop character or the end |
| `ExampleExtraction.Inputs` | scripts/add_examples_to_leetcode_problems.js:19-21 | each input is trimmed, holds no newline, and is the trimmed rest of the line after some occurrence of `Input:` |
| `ExampleExtraction.InputsAreAllMatches` | scripts/add_examples_to_leetcode_problems.js:19-21 | there is one input per `Input:` match of the global scan, in order: the i-th input is the trimmed rest of the line after the i-th match, the matches do not overlap, and no occurrence of `Input:` is skipped |
| `ExampleExtraction.NoCharSurvivesTrim` | scripts/add_examples_to_leetcode_problems.js:20 | trimming never introduces a character |
| `ExampleExtraction.FirstKeyword` | scripts/add_examples_to_leetcode_problems.js:14 | the leftmost start of `Explanation:` or `Note:`, or none |
| `ExampleExtraction.CutNote` | scripts/add_examples_to_leetcode_problems.js:25 | a text without `Explanation:` or `Note:` is unchanged; otherwise the leftmost keyword and the rest of its line go, and the text around them stays |
| `ExampleExtraction.OutputValue` | scripts/add_examples_to_leetcode_problems.js:23-25 | the value is trimmed; for a capture without line terminators it is the trimmed capture when that holds no keyword, else the trimmed text before the leftmost keyword |
| `ExampleExtraction.CutNoteOfLine` | scripts/add_examples_to_leetcode_problems.js:25 | on a trimmed line without terminators, removing the note keeps exactly the text before the leftmost keyword |
| `ExampleExtraction.Outputs` | scripts/add_examples_to_leetcode_problems.js:22-27 | each output is trimmed and is the value of the text after some occurrence of `Output:`, up to the first newline or carriage return |
| `ExampleExtraction.OutputsAreAllMatches` | scripts/add_examples_to_leetcode_problems.js:22-27 | there is one output per `Output:` match of the global scan, in order: the i-th output is the value of the capture after the i-th match, the matches do not overlap, and no occurrence of `Output:` is skipped |
| `ExampleExtraction.ExtractAllExamples` | scripts/add_examples_to_leetcode_problems.js:28-33 | as many examples as the shorter of the two lists, the i-th input paired with the i-th output by position |
| `ExampleExtraction.ExamplesPairMatches` | scripts/add_examples_to_leetcode_problems.js:28-33 | the number of examples is the smaller of the numbers of `Input:` and `Output:` matches, and the i-th example pairs the trimmed capture of the i-th `Input:` match with the value of the i-th `Output:` match |
| `ExampleExtraction.NoKeyNoExamples` | scripts/add_examples_to_leetcode_problems.js:19-32 | a description without `Input:` yields no examples |
| `ExampleExtraction.OutputHasNoKeyword` | scripts/add_examples_to_leetcode_problems.js:23-25 | an output value cut at the first keyword contains neither keyword |
| `ExampleExtraction.OutputsHaveNoKeyword` | scripts/add_examples_to_leetcode_problems.js:22-27 | in a description without the separators U+2028 and U+2029, no output contains `Explanation:` or `Note:` |
| `ExampleExtraction.SliceHasNoTerminator` | scripts/add_examples_to_leetcode_problems.js:23 | a trimmed line still holds no line terminator |
| `ExampleExtraction.NoKeywordInSlice` | scripts/add_examples_to_leetcode_problems.js:25 | the text before the first keyword holds no keyword |
| `ExampleExtraction.NoKeywordSurvivesTrim` | scripts/add_examples_to_leetcode_problems.js:25 | trimming a keyword-free text leaves it keyword-free |
| `ExampleExtraction.UpdateProblem` | scripts/add_examples_to_leetcode_problems.js:36-43 | a problem with a truthy description gets its extracted examples and loses the single-example fields; any other problem is untouched; identity, title, difficulty, description and topics are kept |
| `ExampleExtraction.UpdateAll` | scripts/add_examples_to_leetcode_problems.js:36-44 | every problem is updated in place, none added or removed |
| `ExampleExtraction.UpdateAllIdempotent` | scripts/add_examples_to_leetcode_problems.js:36-44 | running the script a second time changes nothing |

## Left out

- The DOM and the rendering are left out. The model keeps element classes and texts, the chat panel as a sequence of entries, and notices as values. `marked` rendering, scrolling, button disabling and the progress display of model loading are not modelled.
- WebLLM and the streaming transport are the `Llm` parameter. A stream is a sequence of delta contents, optionally followed by an error, and an error at stream creation is a failure after no chunks. Temperatures are in tenths.
- Pyodide is the `Executor` parameter. `runPythonCode`, the stdout/stderr interceptors, the interpreter set-up and the text appended to the output element are not modelled.
- The case where `runWithExamples` finds no Python environment or no output element is left out. So is the catch that turns an interpreter error into `null`: the executor is total.
- The date in the system prompt is the `today` parameter, and the timestamps of progress records are dropped.
- localStorage and the `fs` I/O of the script are left out. The progress record and the problem list are values, and `Progress.Load` takes what storage holds as a `Stored` value.
- Calls run one at a time, as a single user makes them. Overlapping asynchronous calls, where the IN_PROGRESS flag would matter, are not modelled.
- Prompt and notice wording is a parameter, `Prose` for the chat service and `HintWording` for the hints. `ChatSession.SourceProse` and `ChatActions.SourceHints` hold the exact texts, and every property holds whatever the wording is.
- `content || ''` in `addMessage` is left out: content is always a string here, and the empty string stays empty.
- `sendMessage` without a current problem raises a `TypeError` when it builds the system prompt. The model treats this as a stream that fails before any chunk, with that error's message (`StreamFor`).
- Problem ids are integers. The loose `==` of `selectProblem` and the key coercion of the progress maps are taken to be integer equality. An id is truthy when it is not 0.
- Case mapping is ASCII only, so `toLowerCase`/`toUpperCase` of non-ASCII letters is not modelled.
- UiHelpers.SortUnique: strings are ordered by code point. `Array.prototype.sort` compares UTF-16 code units, and the two orders differ only for characters beyond U+FFFF.
- `resetProblemUI` also writes `window.hintCount`, a global that no code reads, so that write is not modelled. Its click on the reset-code button does reach the chat counter, through the listener that main.js:84-89 installs, and `ChatActions.SelectProblemPanel` models that effect. The rest of that listener, which resets the editor text, is not modelled.
- The test program's report lines use `{i + 1}` inside Python f-strings, which refers to a Python variable `i`. The generated program never defines `i`, so unless the user code binds `i`, the report line raises a `NameError` and the example fails. Python semantics are the executor's concern, so this is not modelled as a finding.
- The executor is a function of the program text and the capture flag alone. Pyodide keeps one global namespace across runs (python-runner.js:124, 285), so names bound by an earlier example or run stay visible to later ones, and a name the user code rebinds is then already in `_original_vars` and is not reported. This cross-run state is not modelled.
- The model loading (`loadModel`, `updateProgress`), `isModelLoaded` (the `loaded` flag of `Env`), `renderProblemList` except its item classes, `updateProblemDisplay`, `populateTopicFilterOptions`, `createProblemInfoElement`, `createNoProblemsElement`, `updateProblemCompletionUI`, `fetchProblems` and main.js are DOM or I/O wiring and are left out.
