/** The conversation-context manager of llm-service.js: the chat history
    kept for the model, the running summary of dropped exchanges, the
    summarisation flag, and what `sendMessage` asks of the model and shows in
    the chat panel. The model is not modelled: it is the `Llm` parameter, a
    function from a request to the stream of deltas it answers with. Calls
    are taken one at a time, as a single user clicking through the panel
    makes them. */
module ChatSession {

  import opened Wrappers
  import opened JsStrings
  import opened Problems
  import Seqs

  // ---------------------------------------------------------------------------
  // State
  // ---------------------------------------------------------------------------

  datatype Role = User | Assistant

  /** One `{role, content}` entry of `chatHistory`. */
  datatype Turn = Turn(role: Role, content: string)

  /** `SummarizationState`: NONE, IN_PROGRESS, DONE. */
  datatype SummarizationState = Idle | InProgress | Done

  datatype MessageRole = SystemRole | UserRole | AssistantRole

  /** One message of a chat-completion request. */
  datatype Message = Message(role: MessageRole, content: string)

  /** A streamed chat-completion request; the temperature in tenths. */
  datatype Request = Request(messages: seq<Message>, temperatureTenths: nat, maxTokens: nat)

  /** The model's answer: the delta contents of the chunks received (`None`
      for a chunk without content), then the error message if the stream
      (or its creation) failed after them. */
  datatype Stream = Stream(deltas: seq<Option<string>>, failure: Option<string>)

  type Llm = Request -> Stream

  /** The fixed wording of the service's prompts and notices. Every
      property below holds whatever they say; `SourceProse` holds the texts
      llm-service.js uses. */
  datatype Prose = Prose(
    summarizerInstruction: string,
    exchangeInstruction: string,
    contextIntro: string,
    summaryHeader: string,
    guidance: string,
    earlierSummaryIntro: string,
    errorPrefix: string,
    missingProblemError: string)

  /** The texts of llm-service.js. The last one is the message of the
      `TypeError` raised when the system prompt reads the title of a missing
      problem. */
  const SourceProse := Prose(
    "You are a helpful assistant that summarizes chat history for future context.",
    "Summarize the following user and assistant exchange for future context. "
      + "Focus on the key question, answer, and learning points.\n\nUSER: ",
    "# CONTEXT\nYou are an expert software engineer and computer science educator specializing in algorithms and data structures. "
      + "You're helping a student work through the following LeetCode-style coding problem:\n\n",
    "\n\n# SUMMARIZED PREVIOUS HISTORY\n",
    "\n\n# OBJECTIVE\nGuide the student through the problem-solving process with a focus on learning and skill development rather than just providing answers. "
      + "Your guidance should build their problem-solving abilities and help them understand the underlying concepts.\n\n"
      + "# STYLE\nYour explanations should be clear, structured, and educational. Use a step-by-step approach when explaining concepts. "
      + "Include relevant computer science principles and algorithms where appropriate. When sharing code examples, use clean, well-commented, and efficient code.\n\n"
      + "# TONE\nBe supportive, patient, and encouraging. Treat mistakes as learning opportunities. "
      + "Be conversational but professional, like an expert mentor working with a motivated student.\n\n"
      + "# AUDIENCE\nYour student has programming knowledge but may be unfamiliar with some algorithms and data structures concepts. "
      + "They learn best through guided discovery rather than direct solutions.\n\n"
      + "# RESPONSE FORMAT\n- For hints: Provide a relevant hint that guides thinking without revealing the full solution\n"
      + "- For approaches: Explain the reasoning process, possible algorithms, time/space complexity considerations\n"
      + "- For code explanations: Analyze the code line by line, highlight strengths/weaknesses, suggest improvements\n"
      + "- For optimization help: Explain both the theoretical and practical optimizations possible\n"
      + "- Always use markdown formatting with appropriate syntax highlighting for code blocks\n"
      + "- For complex algorithms, include step-by-step explanations with examples\n\nToday is ",
    "Summary of earlier conversation: ",
    "Sorry, there was an error generating a response: ",
    "Cannot read properties of null (reading 'title')")

  /** Whether a model is loaded (`llmModel` is not null), the model, and the
      wording. */
  datatype Env = Env(loaded: bool, llm: Llm, prose: Prose)

  /** The senders the panel distinguishes; a `div` of sender `x` has the
      class `message x`. */
  datatype Sender = UserSender | AiSender | AssistantSender | SystemSender

  function SenderName(s: Sender): string {
    match s
    case UserSender => "user"
    case AiSender => "ai"
    case AssistantSender => "assistant"
    case SystemSender => "system"
  }

  /** A `div` appended to the chat panel: its sender and its content. */
  datatype Shown = Shown(sender: Sender, content: string)

  /** The module state (`chatHistory`, `summarizedHistory`,
      `summarizationState`), the chat panel, and the requests sent to the
      model so far. */
  datatype Chat = Chat(
    history: seq<Turn>,
    summary: string,
    state: SummarizationState,
    transcript: seq<Shown>,
    requests: seq<Request>)

  /** The state when the page loads. */
  const Initial := Chat([], "", Idle, [], [])

  // ---------------------------------------------------------------------------
  // addMessage
  // ---------------------------------------------------------------------------

  /** The history role of a sender: only `user`, `ai` and `assistant` are
      kept, and `ai` is stored as an assistant turn. */
  function HistoryRole(sender: Sender): Option<Role> {
    match sender
    case UserSender => Some(User)
    case AiSender => Some(Assistant)
    case AssistantSender => Some(Assistant)
    case SystemSender => None
  }

  /** `addMessage(content, sender, hidden)`: shown in the panel unless hidden,
      kept in the history when the sender has a history role. */
  function AddMessage(c: Chat, content: string, sender: Sender, hidden: bool): (r: Chat)
    ensures |r.history| == |c.history| + (if sender != SystemSender then 1 else 0)
    ensures r.history[..|c.history|] == c.history
    ensures sender == UserSender ==> r.history[|c.history|] == Turn(User, content)
    ensures sender in {AiSender, AssistantSender} ==> r.history[|c.history|] == Turn(Assistant, content)
    ensures hidden ==> r.transcript == c.transcript
    ensures !hidden ==> r.transcript == c.transcript + [Shown(sender, content)]
    ensures r.summary == c.summary && r.state == c.state && r.requests == c.requests
  {
    var transcript := if hidden then c.transcript else c.transcript + [Shown(sender, content)];
    var history := match HistoryRole(sender)
      case Some(role) => c.history + [Turn(role, content)]
      case None => c.history;
    c.(history := history, transcript := transcript)
  }

  // ---------------------------------------------------------------------------
  // getLLMSummary
  // ---------------------------------------------------------------------------

  /** The text received: every delta content, in order. */
  function Accumulate(deltas: seq<Option<string>>): string {
    if |deltas| == 0 then ""
    else Accumulate(deltas[..|deltas| - 1]) + deltas[|deltas| - 1].GetOr("")
  }

  /** Receiving more chunks only extends the text received so far. */
  lemma {:induction false} AccumulateAppend(a: seq<Option<string>>, b: seq<Option<string>>)
    ensures Accumulate(a + b) == Accumulate(a) + Accumulate(b)
    decreases |b|
  {
    if |b| == 0 {
      assert a + b == a;
    } else {
      AccumulateAppend(a, b[..|b| - 1]);
      Seqs.DropLastOfAppend(a, b);
    }
  }

  /** The request `getLLMSummary` makes: temperature 0.3, at most 200 tokens. */
  function SummaryRequest(prose: Prose, prompt: string): Request {
    Request([Message(SystemRole, prose.summarizerInstruction), Message(UserRole, prompt)], 3, 200)
  }

  /** `getLLMSummary(prompt)`: nothing without a model; otherwise the text
      streamed back, trimmed, including whatever arrived before a failure. */
  function GetLLMSummary(env: Env, prompt: string): (s: string)
    ensures IsTrimmed(s)
    ensures !env.loaded ==> s == ""
  {
    if !env.loaded then "" else Trim(Accumulate(env.llm(SummaryRequest(env.prose, prompt)).deltas))
  }

  /** A failure after some chunks keeps the text of those chunks: the summary
      is the one the same chunks give without the failure. */
  lemma SummaryKeepsPartialText(env: Env, prompt: string, received: seq<Option<string>>, err: string)
    requires env.loaded
    requires env.llm(SummaryRequest(env.prose, prompt)) == Stream(received, Some(err))
    ensures GetLLMSummary(env, prompt) == Trim(Accumulate(received))
    ensures forall more :: Accumulate(received + more) == Accumulate(received) + Accumulate(more)
  {
    forall more {
      AccumulateAppend(received, more);
    }
  }

  // ---------------------------------------------------------------------------
  // The summarisation step of sendMessage
  // ---------------------------------------------------------------------------

  /** The number of user turns. */
  function UserCount(h: seq<Turn>): nat {
    if |h| == 0 then 0
    else UserCount(h[..|h| - 1]) + (if h[|h| - 1].role == User then 1 else 0)
  }

  lemma {:induction false} UserCountAppend(a: seq<Turn>, b: seq<Turn>)
    ensures UserCount(a + b) == UserCount(a) + UserCount(b)
    decreases |b|
  {
    if |b| == 0 {
      assert a + b == a;
    } else {
      UserCountAppend(a, b[..|b| - 1]);
      Seqs.DropLastOfAppend(a, b);
    }
  }

  /** The index of the oldest user turn. */
  function FirstUser(h: seq<Turn>): (i: nat)
    requires UserCount(h) > 0
    ensures i < |h| && h[i].role == User
    ensures forall k :: 0 <= k < i ==> h[k].role == Assistant
  {
    if h[0].role == User then 0
    else
      assert h == [h[0]] + h[1..];
      UserCountAppend([h[0]], h[1..]);
      assert UserCount([h[0]]) == 0 by { assert [h[0]][..0] == []; }
      1 + FirstUser(h[1..])
  }

  /** The scan of `pairedAssistantIdx`: the first assistant turn at or after
      `from`, or the length of the history when there is none. */
  function NextAssistant(h: seq<Turn>, from: nat): (j: nat)
    requires from <= |h|
    ensures from <= j <= |h|
    ensures j < |h| ==> h[j].role == Assistant
    ensures forall k :: from <= k < j ==> h[k].role == User
    decreases |h| - from
  {
    if from == |h| || h[from].role == Assistant then from
    else
      assert h[from].role == User;
      NextAssistant(h, from + 1)
  }

  /** What the summarisation step takes out of the history. */
  datatype Removal = Removal(rest: seq<Turn>, user: Turn, assistant: Option<Turn>)

  /** Drop the oldest user turn and the first assistant turn after it — even
      when other user turns come in between. */
  function RemoveOldestPair(h: seq<Turn>): (r: Removal)
    requires UserCount(h) > 0
    ensures r.user.role == User && r.user in h
    ensures r.assistant.Some? ==> r.assistant.value.role == Assistant && r.assistant.value in h
  {
    var u := FirstUser(h);
    var j := NextAssistant(h, u + 1);
    if j < |h| then Removal(Seqs.RemoveAt(Seqs.RemoveAt(h, j), u), h[u], Some(h[j]))
    else Removal(Seqs.RemoveAt(h, u), h[u], None)
  }

  /** The step takes out exactly one user turn and at most one assistant
      turn, and keeps the remaining turns in their order. */
  lemma RemoveOldestPairShrinks(h: seq<Turn>)
    requires UserCount(h) > 0
    ensures var rm := RemoveOldestPair(h);
            && rm.user.role == User
            && (rm.assistant.Some? ==> rm.assistant.value.role == Assistant)
            && |rm.rest| == |h| - (if rm.assistant.Some? then 2 else 1)
            && UserCount(rm.rest) == UserCount(h) - 1
            && Seqs.IsSubsequence(rm.rest, h)
  {
    var u := FirstUser(h);
    var j := NextAssistant(h, u + 1);
    var rm := RemoveOldestPair(h);
    if j < |h| {
      var h1 := Seqs.RemoveAt(h, j);
      RemoveOne(h, j);
      RemoveOne(h1, u);
      Seqs.RemoveIsSubsequence(h, j);
      Seqs.RemoveIsSubsequence(h1, u);
      Seqs.SubsequenceTransitive(rm.rest, h1, h);
    } else {
      RemoveOne(h, u);
      Seqs.RemoveIsSubsequence(h, u);
    }
  }

  /** Taking out one turn lowers the user count by one if it is a user
      turn. */
  lemma RemoveOne(h: seq<Turn>, i: nat)
    requires i < |h|
    ensures UserCount(Seqs.RemoveAt(h, i)) == UserCount(h) - (if h[i].role == User then 1 else 0)
  {
    var a, x, b := h[..i], [h[i]], h[i + 1..];
    Seqs.RemoveAtSplit(h, i);
    UserCountAppend(a + x, b);
    UserCountAppend(a, b);
    UserCountPush(a, h[i]);
  }

  /** The prompt that asks for a summary of the dropped exchange. */
  function ExchangePrompt(prose: Prose, rm: Removal): string {
    prose.exchangeInstruction + rm.user.content + "\nASSISTANT: "
    + (match rm.assistant case Some(t) => t.content case None => "")
  }

  /** The summary-append rule. */
  function AppendSummary(prior: string, s: string): (r: string)
    ensures StartsWith(r, prior) && EndsWith(r, s)
    ensures prior == "" ==> r == s
    ensures prior != "" ==> |r| == |prior| + 1 + |s| && r[|prior|] == '\n'
  {
    var r := if prior == "" then s else prior + "\n" + s;
    assert r[|r| - |s|..] == s;
    r
  }

  /** Whether the summarisation step fires. */
  predicate SummarizationFires(c: Chat) {
    UserCount(c.history) > 3 && c.state != InProgress
  }

  /** The summarisation step of `sendMessage`: when it fires, the oldest
      exchange leaves the history, one summary request is made, its answer
      is appended to the running summary, and the flag ends at DONE. */
  function Summarize(env: Env, c: Chat): (r: Chat)
    ensures SummarizationFires(c) <==> |r.requests| == |c.requests| + 1
    ensures !SummarizationFires(c) ==> r == c
    ensures SummarizationFires(c) ==>
              && r.state == Done
              && StartsWith(r.summary, c.summary)
              && UserCount(r.history) == UserCount(c.history) - 1
              && Seqs.IsSubsequence(r.history, c.history)
    ensures r.transcript == c.transcript
    ensures r.requests[..|c.requests|] == c.requests
  {
    if SummarizationFires(c) then
      var rm := RemoveOldestPair(c.history);
      RemoveOldestPairShrinks(c.history);
      var prompt := ExchangePrompt(env.prose, rm);
      var s := GetLLMSummary(env, prompt);
      var requests := c.requests + [SummaryRequest(env.prose, prompt)];
      assert requests[..|c.requests|] == c.requests;
      c.(history := rm.rest, summary := AppendSummary(c.summary, s), state := Done, requests := requests)
    else c
  }

  // ---------------------------------------------------------------------------
  // The system prompt and the message window
  // ---------------------------------------------------------------------------

  /** `${x}` of a possibly absent string field. */
  function TemplateText(s: Option<string>): string {
    match s case Some(v) => v case None => "undefined"
  }

  /** The problem part of the CONTEXT section. */
  function ProblemContext(prose: Prose, p: Problem): string {
    prose.contextIntro + p.title + " (" + ToUpper(p.difficulty) + "):\n" + TemplateText(p.description)
  }

  /** The section carrying the running summary; absent while it is empty. */
  function SummarySection(prose: Prose, summary: string): string {
    if summary == "" then "" else prose.summaryHeader + summary
  }

  /** The system prompt of `sendMessage`; `today` is the formatted date. */
  function SystemPrompt(prose: Prose, p: Problem, summary: string, today: string): string {
    ProblemContext(prose, p) + SummarySection(prose, summary) + Closing(prose, today)
  }

  /** The guidance sections and the date line. */
  function Closing(prose: Prose, today: string): string {
    prose.guidance + today + "."
  }

  /** The summarised-history section appears exactly when the summary is not
      empty: the prompt differs from the summary-free one iff there is a
      summary, and then it holds the header followed by the summary. */
  lemma SummarySectionIffSummary(prose: Prose, p: Problem, summary: string, today: string)
    ensures SystemPrompt(prose, p, summary, today) == SystemPrompt(prose, p, "", today) <==> summary == ""
    ensures summary != "" ==> Includes(SystemPrompt(prose, p, summary, today), prose.summaryHeader + summary)
  {
    SectionBetween(prose, ProblemContext(prose, p), summary, Closing(prose, today));
  }

  lemma SectionBetween(prose: Prose, head: string, summary: string, tail: string)
    ensures head + SummarySection(prose, summary) + tail == head + tail <==> summary == ""
    ensures summary != "" ==> Includes(head + SummarySection(prose, summary) + tail, prose.summaryHeader + summary)
  {
    if summary != "" {
      var section := prose.summaryHeader + summary;
      var full := head + section + tail;
      assert |full| > |head + tail|;
      assert full[|head|..|head| + |section|] == section;
      assert OccursAt(full, section, |head|);
    } else {
      assert head + SummarySection(prose, summary) == head;
    }
  }

  function RoleName(r: Role): string {
    match r case User => "user" case Assistant => "assistant"
  }

  function ToMessage(t: Turn): Message {
    Message(match t.role case User => UserRole case Assistant => AssistantRole, t.content)
  }

  function ToMessages(h: seq<Turn>): (ms: seq<Message>)
    ensures |ms| == |h|
    ensures forall i :: 0 <= i < |h| ==> ms[i] == ToMessage(h[i])
  {
    if |h| == 0 then [] else [ToMessage(h[0])] + ToMessages(h[1..])
  }

  /** `oldMessages.map(m => `${m.role}: ${m.content}`).join('\n')`. */
  function TranscriptLines(h: seq<Turn>): string {
    if |h| == 0 then ""
    else if |h| == 1 then RoleName(h[0].role) + ": " + h[0].content
    else RoleName(h[0].role) + ": " + h[0].content + "\n" + TranscriptLines(h[1..])
  }

  /** The messages of the main request. Up to six turns go verbatim after
      the system prompt; beyond that the older turns are summarised into a
      second system message and only the last six turns follow. */
  function Window(env: Env, history: seq<Turn>, systemPrompt: string): (ms: seq<Message>)
    ensures |ms| <= 8
    ensures |history| <= 6 ==> ms == [Message(SystemRole, systemPrompt)] + ToMessages(history)
    ensures |history| > 6 ==>
              && |ms| == 8
              && ms[0] == Message(SystemRole, systemPrompt)
              && ms[1].role == SystemRole
              && ms[2..] == ToMessages(history[|history| - 6..])
  {
    if |history| <= 6 then [Message(SystemRole, systemPrompt)] + ToMessages(history)
    else
      var older := TranscriptLines(history[..|history| - 6]);
      var s := GetLLMSummary(env, older);
      [Message(SystemRole, systemPrompt), Message(SystemRole, env.prose.earlierSummaryIntro + s)]
        + ToMessages(history[|history| - 6..])
  }

  /** The requests the window itself makes: one summary request for the
      older turns when there are more than six. */
  function WindowRequests(prose: Prose, history: seq<Turn>): (rs: seq<Request>)
    ensures |rs| == (if |history| > 6 then 1 else 0)
  {
    if |history| <= 6 then [] else [SummaryRequest(prose, TranscriptLines(history[..|history| - 6]))]
  }

  // ---------------------------------------------------------------------------
  // sendMessage
  // ---------------------------------------------------------------------------

  /** The main request: temperature 0.7, at most 1500 tokens. */
  function ChatRequest(messages: seq<Message>): Request {
    Request(messages, 7, 1500)
  }

  /** The chat after the user turn is added and the summarisation step has
      run: the part of `sendMessage` before anything can fail. */
  function Prepare(env: Env, c: Chat, message: string, hidden: bool): (r: Chat)
    ensures |c.requests| <= |r.requests| <= |c.requests| + 1 && r.requests[..|c.requests|] == c.requests
    ensures StartsWith(r.summary, c.summary)
  {
    Summarize(env, AddMessage(c, message, UserSender, hidden))
  }

  /** The stream of the main request, given the prepared chat. */
  function MainRequest(env: Env, prepared: Chat, p: Problem, today: string): Request {
    ChatRequest(Window(env, prepared.history, SystemPrompt(env.prose, p, prepared.summary, today)))
  }

  /** `sendMessage(message, hidden, problem)`. Nothing happens for an empty
      message or without a model. Otherwise the user turn is stored first; a
      response `div` is always added to the panel, even for a hidden request;
      the assistant turn is stored only once the stream has ended; a failure
      adds a visible notice that is never stored. */
  function SendMessage(env: Env, c: Chat, message: string, hidden: bool, problem: Option<Problem>, today: string): (r: Chat)
    ensures message == "" || !env.loaded ==> r == c
  {
    if message == "" || !env.loaded then c
    else
      var c2 := Prepare(env, c, message, hidden);
      match problem
      case None =>
        var c3 := c2.(transcript := c2.transcript + [Shown(AiSender, "")]);
        AddMessage(c3, env.prose.errorPrefix + env.prose.missingProblemError, SystemSender, false)
      case Some(p) => Respond(env.prose, c2, hidden, Sent(env, c2, p, today), Reply(env, c2, p, today))
  }

  /** The requests a response makes: the window's own summary request, if
      any, then the main request. */
  function Sent(env: Env, c2: Chat, p: Problem, today: string): (rs: seq<Request>)
    ensures |rs| == (if |c2.history| > 6 then 2 else 1)
    ensures rs[|rs| - 1] == MainRequest(env, c2, p, today)
  {
    WindowRequests(env.prose, c2.history) + [MainRequest(env, c2, p, today)]
  }

  /** The model's answer to the main request of a prepared chat. */
  function Reply(env: Env, c2: Chat, p: Problem, today: string): Stream {
    env.llm(MainRequest(env, c2, p, today))
  }

  /** The part of `sendMessage` after the requests are made: the streamed
      response `div`, then either the stored answer or the error notice. */
  function Respond(prose: Prose, c2: Chat, hidden: bool, sent: seq<Request>, stream: Stream): (r: Chat)
    ensures r.requests == c2.requests + sent
    ensures r.summary == c2.summary && r.state == c2.state
  {
    var text := Accumulate(stream.deltas);
    var c3 := c2.(requests := c2.requests + sent, transcript := c2.transcript + [Shown(AiSender, text)]);
    match stream.failure
    case Some(err) => AddMessage(c3, prose.errorPrefix + err, SystemSender, false)
    case None => AddMessage(c3, text, AssistantSender, hidden)
  }

  /** What a response adds: the assistant turn when the stream ends without
      failure; in the panel the streamed `div`, then the notice on failure,
      or the answer a second time when the request is visible. */
  lemma RespondEffects(prose: Prose, c2: Chat, hidden: bool, sent: seq<Request>, stream: Stream)
    ensures var r := Respond(prose, c2, hidden, sent, stream);
            var text := Accumulate(stream.deltas);
            && r.history == c2.history + (if stream.failure.None? then [Turn(Assistant, text)] else [])
            && r.transcript == c2.transcript + ResponseShown(prose, hidden, stream)
            && r.requests == c2.requests + sent
  {
    var text := Accumulate(stream.deltas);
    var shown := c2.transcript + [Shown(AiSender, text)];
    assert shown + [] == shown;
    assert c2.history + [] == c2.history;
    match stream.failure
    case Some(err) =>
      assert shown + [Shown(SystemSender, prose.errorPrefix + err)]
        == c2.transcript + ResponseShown(prose, hidden, stream);
    case None =>
      if !hidden {
        assert shown + [Shown(AssistantSender, text)] == c2.transcript + ResponseShown(prose, hidden, stream);
      }
  }

  /** What a response shows after the prepared chat: the streamed `div`, then
      the notice on failure, or the answer a second time when the request is
      visible. */
  function ResponseShown(prose: Prose, hidden: bool, stream: Stream): (shown: seq<Shown>)
    ensures 1 <= |shown| <= 2 && shown[0] == Shown(AiSender, Accumulate(stream.deltas))
  {
    var text := Accumulate(stream.deltas);
    [Shown(AiSender, text)]
      + match stream.failure
        case Some(err) => [Shown(SystemSender, prose.errorPrefix + err)]
        case None => if hidden then [] else [Shown(AssistantSender, text)]
  }

  /** The stream a call without a problem behaves as: nothing received, then
      the error of reading the missing problem's title. */
  function StreamFor(env: Env, c2: Chat, problem: Option<Problem>, today: string): (st: Stream)
    ensures problem.None? ==> st.deltas == [] && st.failure == Some(env.prose.missingProblemError)
    ensures problem.Some? ==> st == env.llm(MainRequest(env, c2, problem.value, today))
  {
    match problem
    case None => Stream([], Some(env.prose.missingProblemError))
    case Some(p) => Reply(env, c2, p, today)
  }

  /** With a model and a message, the panel gains what preparing shows, then
      the response; a call without a problem shows an empty response `div`
      and the error notice. */
  lemma SendMessageShows(env: Env, c: Chat, message: string, hidden: bool, problem: Option<Problem>, today: string)
    requires message != "" && env.loaded
    ensures var c2 := Prepare(env, c, message, hidden);
            SendMessage(env, c, message, hidden, problem, today).transcript
              == c2.transcript + ResponseShown(env.prose, hidden, StreamFor(env, c2, problem, today))
  {
    var c2 := Prepare(env, c, message, hidden);
    match problem
    case None =>
      ShowsWithoutProblem(env, c, message, hidden, today);
    case Some(p) =>
      SendMessageResponds(env, c, message, hidden, p, today);
      RespondEffects(env.prose, c2, hidden, Sent(env, c2, p, today), Reply(env, c2, p, today));
  }

  /** With a model and a message, `sendMessage` on a problem is the response
      to the prepared chat. */
  lemma SendMessageResponds(env: Env, c: Chat, message: string, hidden: bool, p: Problem, today: string)
    requires message != "" && env.loaded
    ensures var c2 := Prepare(env, c, message, hidden);
            SendMessage(env, c, message, hidden, Some(p), today)
              == Respond(env.prose, c2, hidden, Sent(env, c2, p, today), Reply(env, c2, p, today))
  {
  }

  /** `clearChatHistory`: history, summary and flag back to their initial
      values; the panel is not touched. */
  function ClearChatHistory(c: Chat): (r: Chat)
    ensures r.history == [] && r.summary == "" && r.state == Idle
    ensures r.transcript == c.transcript && r.requests == c.requests
  {
    c.(history := [], summary := "", state := Idle)
  }

  // ---------------------------------------------------------------------------
  // Properties of sendMessage
  // ---------------------------------------------------------------------------

  /** The user turn outlives every later step: after `sendMessage` the
      history ends with it, followed by the assistant turn exactly when the
      response stream ended without failure. */
  lemma SendMessageStoresTurns(env: Env, c: Chat, message: string, hidden: bool, problem: Option<Problem>, today: string)
    requires message != "" && env.loaded
    ensures var r := SendMessage(env, c, message, hidden, problem, today);
            var stream := StreamFor(env, Prepare(env, c, message, hidden), problem, today);
            && |r.history| >= 1
            && (stream.failure.None? ==>
                  && |r.history| >= 2
                  && r.history[|r.history| - 2] == Turn(User, message)
                  && r.history[|r.history| - 1] == Turn(Assistant, Accumulate(stream.deltas)))
            && (stream.failure.Some? ==> r.history[|r.history| - 1] == Turn(User, message))
  {
    var c2 := Prepare(env, c, message, hidden);
    var stream := StreamFor(env, c2, problem, today);
    PrepareEndsWithUser(env, c, message, hidden);
    SendMessageHistory(env, c, message, hidden, problem, today);
    EndsWithTurns(c2.history, if stream.failure.None? then [Turn(Assistant, Accumulate(stream.deltas))] else [], Turn(User, message));
  }

  lemma EndsWithTurns(h: seq<Turn>, ext: seq<Turn>, last: Turn)
    requires |h| > 0 && h[|h| - 1] == last && |ext| <= 1
    ensures var r := h + ext;
            && |r| >= 1
            && (|ext| == 1 ==> |r| >= 2 && r[|r| - 2] == last && r[|r| - 1] == ext[0])
            && (|ext| == 0 ==> r[|r| - 1] == last)
  {
  }

  /** Preparing ends the history with the new user turn. */
  lemma PrepareEndsWithUser(env: Env, c: Chat, message: string, hidden: bool)
    ensures var h := Prepare(env, c, message, hidden).history;
            |h| > 0 && h[|h| - 1] == Turn(User, message)
  {
    SummarizeKeepsLast(env, AddMessage(c, message, UserSender, hidden));
  }

  /** The summarisation step never removes the newest turn when that turn is
      a user turn. */
  lemma SummarizeKeepsLast(env: Env, c: Chat)
    requires |c.history| > 0 && c.history[|c.history| - 1].role == User
    ensures var r := Summarize(env, c);
            |r.history| > 0 && r.history[|r.history| - 1] == c.history[|c.history| - 1]
  {
    if SummarizationFires(c) {
      RemovalKeepsLastUser(c.history);
    }
  }

  /** With two or more user turns, the newest turn, a user turn, survives
      the removal of the oldest exchange. */
  lemma RemovalKeepsLastUser(h: seq<Turn>)
    requires UserCount(h) > 1 && |h| > 0 && h[|h| - 1].role == User
    ensures var rest := RemoveOldestPair(h).rest;
            |rest| > 0 && rest[|rest| - 1] == h[|h| - 1]
  {
    var u := FirstUser(h);
    var j := NextAssistant(h, u + 1);
    FirstUserSplit(h);
    assert u + 1 < |h|;
    if j < |h| {
      Seqs.RemoveAtKeepsLast(h, j);
      Seqs.RemoveAtKeepsLast(Seqs.RemoveAt(h, j), u);
    } else {
      Seqs.RemoveAtKeepsLast(h, u);
    }
  }

  /** The user turns after the oldest one are all the others. */
  lemma FirstUserSplit(h: seq<Turn>)
    requires UserCount(h) > 0
    ensures UserCount(h[FirstUser(h) + 1..]) == UserCount(h) - 1
  {
    var u := FirstUser(h);
    assert h == h[..u] + [h[u]] + h[u + 1..];
    UserCountAppend(h[..u] + [h[u]], h[u + 1..]);
    UserCountAppend(h[..u], [h[u]]);
    assert [h[u]][..0] == [];
    AllAssistantsNoUsers(h[..u]);
  }

  lemma {:induction false} AllAssistantsNoUsers(h: seq<Turn>)
    requires forall k :: 0 <= k < |h| ==> h[k].role == Assistant
    ensures UserCount(h) == 0
  {
    if |h| > 0 {
      AllAssistantsNoUsers(h[..|h| - 1]);
    }
  }

  /** A failed request shows a notice in the panel after the response `div`,
      and the notice never enters the history. */
  lemma FailureShowsNotice(env: Env, c: Chat, message: string, hidden: bool, p: Problem, today: string, err: string)
    requires message != "" && env.loaded
    requires Reply(env, Prepare(env, c, message, hidden), p, today).failure == Some(err)
    ensures var r := SendMessage(env, c, message, hidden, Some(p), today);
            var c2 := Prepare(env, c, message, hidden);
            && r.history == c2.history
            && r.transcript[|r.transcript| - 1] == Shown(SystemSender, env.prose.errorPrefix + err)
            && r.transcript[|r.transcript| - 2].sender == AiSender
  {
    var c2 := Prepare(env, c, message, hidden);
    SendMessageShows(env, c, message, hidden, Some(p), today);
    SendMessageHistory(env, c, message, hidden, Some(p), today);
    var shown := ResponseShown(env.prose, hidden, Reply(env, c2, p, today));
    assert |shown| == 2 && shown[1] == Shown(SystemSender, env.prose.errorPrefix + err);
  }

  /** A hidden request never shows its own text, but the response `div`
      still appears: the panel gains exactly that one entry. */
  lemma HiddenRequestShowsOnlyResponse(env: Env, c: Chat, message: string, p: Problem, today: string)
    requires message != "" && env.loaded
    requires Reply(env, Prepare(env, c, message, true), p, today).failure.None?
    ensures var r := SendMessage(env, c, message, true, Some(p), today);
            var text := Accumulate(Reply(env, Prepare(env, c, message, true), p, today).deltas);
            r.transcript == c.transcript + [Shown(AiSender, text)]
  {
    PrepareTranscript(env, c, message, true);
    SendMessageShows(env, c, message, true, Some(p), today);
  }

  /** A visible request shows its text, then the streamed response `div`,
      then the same answer again as an assistant message. */
  lemma VisibleAnswerShownTwice(env: Env, c: Chat, message: string, p: Problem, today: string)
    requires message != "" && env.loaded
    requires Reply(env, Prepare(env, c, message, false), p, today).failure.None?
    ensures var r := SendMessage(env, c, message, false, Some(p), today);
            var text := Accumulate(Reply(env, Prepare(env, c, message, false), p, today).deltas);
            r.transcript == c.transcript
              + [Shown(UserSender, message), Shown(AiSender, text), Shown(AssistantSender, text)]
  {
    var c2 := Prepare(env, c, message, false);
    var text := Accumulate(Reply(env, c2, p, today).deltas);
    PrepareTranscript(env, c, message, false);
    SendMessageShows(env, c, message, false, Some(p), today);
    VisibleResponseShown(env.prose, Reply(env, c2, p, today));
    var u, a, b := Shown(UserSender, message), Shown(AiSender, text), Shown(AssistantSender, text);
    assert c.transcript + [u] + [a, b] == c.transcript + [u, a, b];
  }

  /** Storing the user turn shows it unless hidden; summarising shows
      nothing. */
  lemma PrepareTranscript(env: Env, c: Chat, message: string, hidden: bool)
    ensures Prepare(env, c, message, hidden).transcript
              == c.transcript + (if hidden then [] else [Shown(UserSender, message)])
  {
    assert c.transcript + [] == c.transcript;
  }

  /** `sendMessage` only ever adds to the panel, after what preparing showed. */
  lemma SendMessageExtendsTranscript(env: Env, c: Chat, message: string, hidden: bool, problem: Option<Problem>, today: string)
    requires message != "" && env.loaded
    ensures var r := SendMessage(env, c, message, hidden, problem, today);
            var c2 := Prepare(env, c, message, hidden);
            |c2.transcript| < |r.transcript| && r.transcript[..|c2.transcript|] == c2.transcript
  {
    var c2 := Prepare(env, c, message, hidden);
    SendMessageShows(env, c, message, hidden, problem, today);
    Seqs.PrefixOfAppend(c2.transcript, ResponseShown(env.prose, hidden, StreamFor(env, c2, problem, today)));
  }

  /** A hidden request adds to the panel only the response `div` and at
      most one notice. */
  lemma HiddenSendTranscript(env: Env, c: Chat, message: string, problem: Option<Problem>, today: string)
    ensures var r := SendMessage(env, c, message, true, problem, today);
            && |c.transcript| <= |r.transcript| <= |c.transcript| + 2
            && r.transcript[..|c.transcript|] == c.transcript
            && forall i :: |c.transcript| <= i < |r.transcript| ==>
                 r.transcript[i].sender in {AiSender, SystemSender}
  {
    if message != "" && env.loaded {
      var c2 := Prepare(env, c, message, true);
      PrepareTranscript(env, c, message, true);
      SendMessageShows(env, c, message, true, problem, today);
      var shown := ResponseShown(env.prose, true, StreamFor(env, c2, problem, today));
      HiddenResponseSenders(env.prose, StreamFor(env, c2, problem, today));
      Seqs.PrefixOfAppend(c.transcript, shown);
    }
  }

  /** A hidden response shows only the response `div` and the notice. */
  lemma HiddenResponseSenders(prose: Prose, stream: Stream)
    ensures var shown := ResponseShown(prose, true, stream);
            forall i :: 0 <= i < |shown| ==> shown[i].sender in {AiSender, SystemSender}
  {
  }

  lemma ShowsWithoutProblem(env: Env, c: Chat, message: string, hidden: bool, today: string)
    requires message != "" && env.loaded
    ensures var c2 := Prepare(env, c, message, hidden);
            SendMessage(env, c, message, hidden, None, today).transcript
              == c2.transcript + ResponseShown(env.prose, hidden, StreamFor(env, c2, None, today))
  {
    var t := Prepare(env, c, message, hidden).transcript;
    var a, b := Shown(AiSender, ""), Shown(SystemSender, env.prose.errorPrefix + env.prose.missingProblemError);
    assert ResponseShown(env.prose, hidden, Stream([], Some(env.prose.missingProblemError))) == [a] + [b];
    assert t + [a] + [b] == t + ([a] + [b]);
  }

  /** A visible answer shows the response `div` and the answer again. */
  lemma VisibleResponseShown(prose: Prose, stream: Stream)
    requires stream.failure.None?
    ensures var text := Accumulate(stream.deltas);
            ResponseShown(prose, false, stream) == [Shown(AiSender, text), Shown(AssistantSender, text)]
  {
  }

  /** With a model and a message, the history gains the assistant turn
      exactly when there is a problem and its stream ends without failure. */
  lemma SendMessageHistory(env: Env, c: Chat, message: string, hidden: bool, problem: Option<Problem>, today: string)
    requires message != "" && env.loaded
    ensures var c2 := Prepare(env, c, message, hidden);
            var stream := StreamFor(env, c2, problem, today);
            SendMessage(env, c, message, hidden, problem, today).history
              == c2.history + (if stream.failure.None? then [Turn(Assistant, Accumulate(stream.deltas))] else [])
  {
    var c2 := Prepare(env, c, message, hidden);
    match problem
    case None =>
      assert c2.history + [] == c2.history;
    case Some(p) =>
      SendMessageResponds(env, c, message, hidden, p, today);
      RespondEffects(env.prose, c2, hidden, Sent(env, c2, p, today), Reply(env, c2, p, today));
  }

  // ---------------------------------------------------------------------------
  // The history invariant of sequential use
  // ---------------------------------------------------------------------------

  /** The turn at `i`, if it is an assistant turn, directly follows a user
      turn. */
  predicate PairedAt(h: seq<Turn>, i: nat)
    requires i < |h|
  {
    h[i].role == Assistant ==> i > 0 && h[i - 1].role == User
  }

  /** Every assistant turn directly follows a user turn. */
  predicate Paired(h: seq<Turn>) {
    forall i :: 0 <= i < |h| ==> PairedAt(h, i)
  }

  /** What holds between calls when they are made one at a time: the history
      is paired, holds at most three user turns, and no summarisation is in
      progress. */
  predicate Steady(c: Chat) {
    Paired(c.history) && UserCount(c.history) <= 3 && c.state != InProgress
  }

  /** A paired history has at most as many assistant turns as user turns. */
  lemma {:induction false} PairedLength(h: seq<Turn>)
    requires Paired(h)
    ensures |h| <= 2 * UserCount(h)
  {
    var n := |h|;
    if n > 0 {
      PairedPrefix(h, n - 1);
      if h[n - 1].role == User {
        PairedLength(h[..n - 1]);
      } else {
        assert PairedAt(h, n - 1);
        var h2 := h[..n - 2];
        assert h[..n - 1][..n - 2] == h2;
        PairedPrefix(h, n - 2);
        PairedLength(h2);
      }
    }
  }

  /** A prefix of a paired history is paired. */
  lemma PairedPrefix(h: seq<Turn>, k: nat)
    requires Paired(h) && k <= |h|
    ensures Paired(h[..k])
  {
    forall i | 0 <= i < k
      ensures PairedAt(h[..k], i)
    {
      assert PairedAt(h, i);
    }
  }

  /** A suffix of a paired history that starts with a user turn is paired. */
  lemma PairedSuffix(h: seq<Turn>, k: nat)
    requires Paired(h) && k <= |h|
    requires k < |h| ==> h[k].role == User
    ensures Paired(h[k..])
  {
    forall i | 0 <= i < |h[k..]|
      ensures PairedAt(h[k..], i)
    {
      assert h[k..][i] == h[k + i];
      assert PairedAt(h, k + i);
    }
  }

  /** User turns followed by a paired history are paired. */
  lemma PairedAfterUsers(a: seq<Turn>, b: seq<Turn>)
    requires forall i :: 0 <= i < |a| ==> a[i].role == User
    requires Paired(b)
    ensures Paired(a + b)
  {
    forall i | 0 <= i < |a + b|
      ensures PairedAt(a + b, i)
    {
      if i >= |a| {
        assert (a + b)[i] == b[i - |a|];
        assert PairedAt(b, i - |a|);
        if i > |a| {
          assert (a + b)[i - 1] == b[i - 1 - |a|];
        }
      }
    }
  }

  /** Removing the oldest exchange from a paired history leaves it paired. */
  lemma RemovalKeepsPaired(h: seq<Turn>)
    requires Paired(h) && UserCount(h) > 0
    ensures Paired(RemoveOldestPair(h).rest)
  {
    assert PairedAt(h, 0);
    var j := NextAssistant(h, 1);
    RemovalFromUserStart(h);
    if j < |h| {
      if j + 1 < |h| {
        assert PairedAt(h, j + 1);
      }
      PairedSuffix(h, j + 1);
      PairedAfterUsers(h[1..j], h[j + 1..]);
    } else {
      PairedAfterUsers(h[1..], []);
      assert h[1..] + [] == h[1..];
    }
  }

  /** When the history starts with a user turn, the removal takes that turn
      and the first assistant turn after it. */
  lemma RemovalFromUserStart(h: seq<Turn>)
    requires |h| > 0 && h[0].role == User
    ensures UserCount(h) > 0
    ensures var j := NextAssistant(h, 1);
            RemoveOldestPair(h).rest == if j < |h| then h[1..j] + h[j + 1..] else h[1..]
  {
    UserStartCounts(h);
    var j := NextAssistant(h, 1);
    if j < |h| {
      Seqs.RemoveFirstAndAt(h, j);
    } else {
      Seqs.RemoveFirst(h);
    }
  }

  lemma UserStartCounts(h: seq<Turn>)
    requires |h| > 0 && h[0].role == User
    ensures UserCount(h) > 0
  {
    assert h == [h[0]] + h[1..];
    UserCountAppend([h[0]], h[1..]);
    assert [h[0]][..0] == [];
  }

  /** Appending a user turn, or an assistant turn right after a user turn,
      keeps a history paired. */
  lemma PairedAppend(h: seq<Turn>, t: Turn)
    requires Paired(h)
    requires t.role == Assistant ==> |h| > 0 && h[|h| - 1].role == User
    ensures Paired(h + [t])
  {
    forall i | 0 <= i < |h + [t]|
      ensures PairedAt(h + [t], i)
    {
      if i < |h| {
        assert PairedAt(h, i);
      }
    }
  }

  /** Adding one turn to the end adds its user count. */
  lemma UserCountPush(h: seq<Turn>, t: Turn)
    ensures UserCount(h + [t]) == UserCount(h) + (if t.role == User then 1 else 0)
  {
    assert (h + [t])[..|h|] == h;
  }

  /** From a steady chat, storing the user turn and summarising leaves a
      paired history of at most three user turns and six turns in all,
      ending with the new user turn. */
  lemma PrepareSteady(env: Env, c: Chat, message: string, hidden: bool)
    requires Steady(c)
    ensures var c2 := Prepare(env, c, message, hidden);
            && Steady(c2)
            && |c2.history| <= 6
            && |c2.history| > 0 && c2.history[|c2.history| - 1] == Turn(User, message)
  {
    var c1 := AddMessage(c, message, UserSender, hidden);
    assert c1.history == c.history + [Turn(User, message)];
    UserCountPush(c.history, Turn(User, message));
    PairedAppend(c.history, Turn(User, message));
    SummarizeSteady(env, c1);
  }

  /** From a paired history of at most four user turns ending with a user
      turn, the summarisation step leaves a steady chat of at most six
      turns that still ends with that turn. */
  lemma SummarizeSteady(env: Env, c1: Chat)
    requires Paired(c1.history) && UserCount(c1.history) <= 4 && c1.state != InProgress
    requires |c1.history| > 0 && c1.history[|c1.history| - 1].role == User
    ensures var c2 := Summarize(env, c1);
            && Steady(c2)
            && |c2.history| <= 6
            && |c2.history| > 0 && c2.history[|c2.history| - 1] == c1.history[|c1.history| - 1]
  {
    if SummarizationFires(c1) {
      RemovalKeepsPaired(c1.history);
    }
    SummarizeKeepsLast(env, c1);
    PairedLength(Summarize(env, c1).history);
  }

  /** One `sendMessage` call keeps the steady state. */
  lemma SendMessageKeepsSteady(env: Env, c: Chat, message: string, hidden: bool, problem: Option<Problem>, today: string)
    requires Steady(c)
    ensures Steady(SendMessage(env, c, message, hidden, problem, today))
  {
    if message != "" && env.loaded {
      var c2 := Prepare(env, c, message, hidden);
      PrepareSteady(env, c, message, hidden);
      SendMessageHistory(env, c, message, hidden, problem, today);
      var stream := StreamFor(env, c2, problem, today);
      if stream.failure.None? {
        var t := Turn(Assistant, Accumulate(stream.deltas));
        PairedAppend(c2.history, t);
        UserCountPush(c2.history, t);
      } else {
        assert c2.history + [] == c2.history;
      }
    }
  }

  /** In steady use the history never exceeds six turns when the window is
      built, so the window's own summary request is never made: the main
      request carries the whole history after the system prompt, and a call
      makes at most one summary request and one main request. */
  lemma SteadyWindowIsVerbatim(env: Env, c: Chat, message: string, hidden: bool, p: Problem, today: string)
    requires Steady(c) && message != "" && env.loaded
    ensures var c2 := Prepare(env, c, message, hidden);
            && |c2.history| <= 6
            && MainRequest(env, c2, p, today).messages
                 == [Message(SystemRole, SystemPrompt(env.prose, p, c2.summary, today))] + ToMessages(c2.history)
            && |SendMessage(env, c, message, hidden, Some(p), today).requests| <= |c.requests| + 2
  {
    PrepareSteady(env, c, message, hidden);
    var c1 := AddMessage(c, message, UserSender, hidden);
    assert |Summarize(env, c1).requests| <= |c.requests| + 1;
    var c2 := Prepare(env, c, message, hidden);
    SendMessageResponds(env, c, message, hidden, p, today);
    RespondEffects(env.prose, c2, hidden, Sent(env, c2, p, today), Reply(env, c2, p, today));
  }

  /** Clearing restores the steady state, whatever came before. */
  lemma ClearIsSteady(c: Chat)
    ensures Steady(ClearChatHistory(c))
  {
    assert UserCount(ClearChatHistory(c).history) == 0;
  }
}
