/** The chat panel's buttons and input box (chat-ui.js): the hint counter
    and its request templates, the approach/explain/optimize requests built
    from the editor text, and the submission of typed input. Each action
    yields the request it hands to `sendMessage`, if any; `Deliver` then
    runs it against the chat session. */
module ChatActions {

  import opened Wrappers
  import opened JsStrings
  import opened Problems
  import opened ChatSession
  import Catalogue
  import Seqs

  /** The module state of chat-ui.js (`hintCount`) together with the text of
      the chat input box. */
  datatype Panel = Panel(hintCount: nat, inputField: string)

  /** A call `sendMessage(text, hidden, currentProblem)`. */
  datatype Send = Send(text: string, hidden: bool)

  // ---------------------------------------------------------------------------
  // Hints
  // ---------------------------------------------------------------------------

  /** The wording of the hint requests: three fixed tiers, then a template
      around the hint number. */
  datatype HintWording = HintWording(
    basic: string,
    specific: string,
    detailed: string,
    numberedOpening: string,
    numberedClosing: string)

  /** The wording of chat-ui.js. */
  const SourceHints := HintWording(
    "Give me a " + "basic conceptual hint about how to approach this problem. Label it as 'Hint 1' and keep it high-level without specific implementation details.",
    "Give me a " + "more specific hint building on Hint 1, focusing on the key data structure or algorithm to use. Label it as 'Hint 2'.",
    "Give me a " + "detailed hint about the implementation approach, but still without giving away the complete solution. Label it as 'Hint 3'.",
    "Give me hint number ",
    ", focusing on optimization or edge cases we haven't covered yet. Make it build upon previous hints.")

  /** The request of the `count`-th hint: three fixed tiers, then a template
      that embeds the count. */
  function HintRequest(w: HintWording, count: nat): string {
    if count == 1 then w.basic
    else if count == 2 then w.specific
    else if count == 3 then w.detailed
    else w.numberedOpening + NatToString(count) + w.numberedClosing
  }

  /** `handleHintClick`: the counter goes up by one before the request is
      chosen, and the request is sent hidden. */
  function HintClick(w: HintWording, p: Panel): (r: (Panel, Send))
    ensures r.0.hintCount == p.hintCount + 1 && r.0.inputField == p.inputField
    ensures r.1.hidden
    ensures r.1.text == HintRequest(w, r.0.hintCount)
  {
    var count := p.hintCount + 1;
    (p.(hintCount := count), Send(HintRequest(w, count), true))
  }

  /** `resetHintCount`. */
  function ResetHintCount(p: Panel): (r: Panel)
    ensures r.hintCount == 0 && r.inputField == p.inputField
  {
    p.(hintCount := 0)
  }

  /** After a reset, the next hint is the basic conceptual one. */
  lemma ResetThenHintIsBasic(w: HintWording, p: Panel)
    ensures HintClick(w, ResetHintCount(p)).1 == Send(w.basic, true)
  {
  }

  /** The chat side of `selectProblem(id)`. A found problem runs
      `resetProblemUI`, which clicks the reset-code button; the button's
      listener calls `resetHintCount`. The listener is installed only after
      the start-up selection (`started` is false for that one), and an id
      that matches no problem returns before the reset. */
  function SelectProblemPanel(c: Catalogue.Catalogue, id: int, p: Panel, started: bool): (r: Panel)
    ensures r.inputField == p.inputField
    ensures started && (exists k :: 0 <= k < |c.problems| && c.problems[k].id == id) ==> r.hintCount == 0
    ensures !started || (forall k :: 0 <= k < |c.problems| ==> c.problems[k].id != id) ==> r == p
  {
    if started && Catalogue.SelectProblem(c, id).1.Some? then ResetHintCount(p) else p
  }

  /** Once the application has started, the first hint after selecting an
      existing problem is the basic conceptual one, whatever was asked for
      the previous problem. */
  lemma SelectThenHintIsBasic(w: HintWording, c: Catalogue.Catalogue, id: int, p: Panel, k: nat)
    requires k < |c.problems| && c.problems[k].id == id
    ensures HintClick(w, SelectProblemPanel(c, id, p, true)).1 == Send(w.basic, true)
  {
    var q := SelectProblemPanel(c, id, p, true);
    assert q.hintCount == 0;
  }

  /** The counter after `k` hint clicks, and the requests they send. */
  function HintClicks(w: HintWording, p: Panel, k: nat): (r: (Panel, seq<Send>))
    ensures |r.1| == k
  {
    if k == 0 then (p, [])
    else
      var (q, sent) := HintClicks(w, p, k - 1);
      var (q', s) := HintClick(w, q);
      (q', sent + [s])
  }

  /** Clicking `k` times advances the counter by `k`, and the `i`-th click
      sends the hint for count `hintCount + i + 1`, hidden. */
  lemma {:induction false} HintClicksProgress(w: HintWording, p: Panel, k: nat)
    ensures var r := HintClicks(w, p, k);
            && r.0.hintCount == p.hintCount + k
            && forall i :: 0 <= i < k ==> r.1[i] == Send(HintRequest(w, p.hintCount + i + 1), true)
  {
    if k > 0 {
      HintClicksProgress(w, p, k - 1);
      var (q, sent) := HintClicks(w, p, k - 1);
      var next := HintClick(w, q).1;
      assert HintClicks(w, p, k) == (HintClick(w, q).0, sent + [next]);
      Seqs.PushIndex(sent, next);
    }
  }

  /** What keeps the requests apart: the three tiers differ in length, and
      none of them begins like a numbered request. */
  predicate Distinguishable(w: HintWording) {
    && |w.basic| != |w.specific| && |w.basic| != |w.detailed| && |w.specific| != |w.detailed|
    && !StartsWith(w.basic, w.numberedOpening)
    && !StartsWith(w.specific, w.numberedOpening)
    && !StartsWith(w.detailed, w.numberedOpening)
  }

  /** The wording of chat-ui.js keeps the requests apart: the tiers are 152,
      126 and 133 characters long, and continue "Give me a" where a numbered
      request continues "Give me h". */
  lemma SourceHintsDistinguishable()
    ensures Distinguishable(SourceHints)
  {
    var w := SourceHints;
    assert |w.basic| == 152 && |w.specific| == 126 && |w.detailed| == 133;
    assert w.basic[8] == 'a' && w.specific[8] == 'a' && w.detailed[8] == 'a';
    assert w.numberedOpening[8] == 'h';
  }

  /** Different counts give different requests: no hint is asked for twice
      between resets. */
  lemma HintRequestInjective(w: HintWording, m: nat, n: nat)
    requires Distinguishable(w)
    requires m >= 1 && n >= 1
    requires HintRequest(w, m) == HintRequest(w, n)
    ensures m == n
  {
    if m <= 3 && n <= 3 {
    } else if m <= 3 {
      FixedHintIsNotNumbered(w, HintRequest(w, m), NatToString(n));
    } else if n <= 3 {
      FixedHintIsNotNumbered(w, HintRequest(w, n), NatToString(m));
    } else {
      var a := NatToString(m);
      var b := NatToString(n);
      var s := w.numberedOpening + a + w.numberedClosing;
      var t := w.numberedOpening + b + w.numberedClosing;
      assert |a| == |b| by { assert |s| == |t|; }
      var k := |w.numberedOpening|;
      assert s[k..k + |a|] == a;
      assert t[k..k + |b|] == b;
      NatToStringInjective(m, n);
    }
  }

  /** A numbered request begins with the numbered opening, which no fixed
      tier does. */
  lemma FixedHintIsNotNumbered(w: HintWording, fixed: string, digits: string)
    requires !StartsWith(fixed, w.numberedOpening)
    ensures fixed != w.numberedOpening + digits + w.numberedClosing
  {
    var t := w.numberedOpening + digits + w.numberedClosing;
    assert t[..|w.numberedOpening|] == w.numberedOpening;
  }

  /** The requests of successive hint clicks are pairwise different. */
  lemma HintClicksDistinct(w: HintWording, p: Panel, k: nat, i: nat, j: nat)
    requires Distinguishable(w)
    requires i < j < k
    ensures HintClicks(w, p, k).1[i] != HintClicks(w, p, k).1[j]
  {
    HintClicksProgress(w, p, k);
    if HintRequest(w, p.hintCount + i + 1) == HintRequest(w, p.hintCount + j + 1) {
      HintRequestInjective(w, p.hintCount + i + 1, p.hintCount + j + 1);
    }
  }

  // ---------------------------------------------------------------------------
  // Approach, explain and optimize
  // ---------------------------------------------------------------------------

  const ApproachRequest :=
    "What's a good approach to solve this problem? Explain the strategy but don't give me the full code."

  /** `handleApproachClick`. */
  function ApproachClick(): (s: Send)
    ensures s.hidden && s.text == ApproachRequest
  {
    Send(ApproachRequest, true)
  }

  const ExplainOpening :=
    "Can you explain what this code does and if it correctly solves the problem?\n\n```python\n"

  const OptimizeOpening := "Can you help me optimize this code for better time/space complexity?\n\n```\n"

  const FenceClose := "\n```"

  const NoCodeToExplain := "# No code to explain"

  const NoCodeToOptimize := "# No code to optimize"

  /** `editor.value || placeholder`: only the empty string is falsy. */
  function OrPlaceholder(editor: string, placeholder: string): string {
    if editor == "" then placeholder else editor
  }

  /** A request that fences a piece of code. */
  function Fenced(opening: string, code: string): string {
    opening + code + FenceClose
  }

  /** `handleExplainClick`. */
  function ExplainClick(editor: string): (s: Send)
    ensures s.hidden
  {
    Send(Fenced(ExplainOpening, OrPlaceholder(editor, NoCodeToExplain)), true)
  }

  /** `handleOptimizeClick`. */
  function OptimizeClick(editor: string): (s: Send)
    ensures s.hidden
  {
    Send(Fenced(OptimizeOpening, OrPlaceholder(editor, NoCodeToOptimize)), true)
  }

  /** The code between a fence's opening and its close. */
  function FencedCode(opening: string, s: string): string
    requires |opening| + |FenceClose| <= |s|
  {
    s[|opening|..|s| - |FenceClose|]
  }

  /** The editor text can be read back out of an explain request: it is the
      text itself, or the placeholder when the editor is empty. */
  lemma ExplainEmbedsEditor(editor: string)
    ensures var s := ExplainClick(editor).text;
            && StartsWith(s, ExplainOpening)
            && EndsWith(s, FenceClose)
            && |ExplainOpening| + |FenceClose| <= |s|
            && FencedCode(ExplainOpening, s) == OrPlaceholder(editor, NoCodeToExplain)
  {
    FencedRoundTrip(ExplainOpening, OrPlaceholder(editor, NoCodeToExplain));
  }

  /** The same for an optimize request. */
  lemma OptimizeEmbedsEditor(editor: string)
    ensures var s := OptimizeClick(editor).text;
            && StartsWith(s, OptimizeOpening)
            && EndsWith(s, FenceClose)
            && |OptimizeOpening| + |FenceClose| <= |s|
            && FencedCode(OptimizeOpening, s) == OrPlaceholder(editor, NoCodeToOptimize)
  {
    FencedRoundTrip(OptimizeOpening, OrPlaceholder(editor, NoCodeToOptimize));
  }

  lemma FencedRoundTrip(opening: string, code: string)
    ensures var s := Fenced(opening, code);
            && StartsWith(s, opening)
            && EndsWith(s, FenceClose)
            && |opening| + |FenceClose| <= |s|
            && FencedCode(opening, s) == code
  {
    var s := Fenced(opening, code);
    assert s[..|opening|] == opening;
    assert s[|s| - |FenceClose|..] == FenceClose;
    assert s[|opening|..|s| - |FenceClose|] == code;
  }

  /** Two explain requests are equal iff the editors held the same text,
      except that an empty editor reads as one holding the placeholder. */
  lemma ExplainRequestsEqualIff(a: string, b: string)
    ensures (ExplainClick(a) == ExplainClick(b))
              <==> (OrPlaceholder(a, NoCodeToExplain) == OrPlaceholder(b, NoCodeToExplain))
  {
    ExplainEmbedsEditor(a);
    ExplainEmbedsEditor(b);
  }

  /** An empty editor and an editor holding the placeholder send the same
      explain request. */
  lemma EmptyEditorLooksLikePlaceholder()
    ensures ExplainClick("") == ExplainClick(NoCodeToExplain)
    ensures OptimizeClick("") == OptimizeClick(NoCodeToOptimize)
  {
  }

  // ---------------------------------------------------------------------------
  // Typed input
  // ---------------------------------------------------------------------------

  /** `handleUserInputSubmission`: the trimmed text is sent visibly and the
      box cleared; blank input sends nothing and leaves the box as it was.
      By `TrimCharacterised`, the text sent is exactly `Trim(p.inputField)`. */
  function SubmitInput(p: Panel): (r: (Panel, Option<Send>))
    ensures r.1.None? <==> AllSpace(p.inputField)
    ensures r.1.None? ==> r.0 == p
    ensures r.1.Some? ==>
              && r.0 == p.(inputField := "")
              && !r.1.value.hidden
              && r.1.value.text != ""
              && IsTrimOf(r.1.value.text, p.inputField)
  {
    var message := Trim(p.inputField);
    TrimEmptyIff(p.inputField);
    TrimCharacterised(p.inputField, message);
    if message == "" then (p, None)
    else (p.(inputField := ""), Some(Send(message, false)))
  }

  // ---------------------------------------------------------------------------
  // Delivery
  // ---------------------------------------------------------------------------

  /** Hand a request to `sendMessage` with the current problem. */
  function Deliver(env: Env, c: Chat, s: Send, problem: Option<Problem>, today: string): Chat {
    SendMessage(env, c, s.text, s.hidden, problem, today)
  }

  /** A button request never shows its own text in the panel: whatever the
      model does, the panel only gains the response `div` and possibly an
      error notice. */
  lemma ButtonRequestShowsNoUserEntry(env: Env, c: Chat, s: Send, problem: Option<Problem>, today: string)
    requires s.hidden
    ensures var r := Deliver(env, c, s, problem, today);
            && |c.transcript| <= |r.transcript| <= |c.transcript| + 2
            && r.transcript[..|c.transcript|] == c.transcript
            && forall i :: |c.transcript| <= i < |r.transcript| ==>
                 r.transcript[i].sender in {AiSender, SystemSender}
  {
    HiddenSendTranscript(env, c, s.text, problem, today);
  }

  /** Typed input shows the user's text first. */
  lemma TypedInputShownFirst(env: Env, c: Chat, p: Panel, problem: Option<Problem>, today: string)
    requires env.loaded
    requires SubmitInput(p).1.Some?
    ensures var s := SubmitInput(p).1.value;
            var r := Deliver(env, c, s, problem, today);
            |r.transcript| > |c.transcript| && r.transcript[|c.transcript|] == Shown(UserSender, s.text)
  {
    var s := SubmitInput(p).1.value;
    PrepareTranscript(env, c, s.text, false);
    SendMessageExtendsTranscript(env, c, s.text, false, problem, today);
    var c2 := Prepare(env, c, s.text, false);
    var r := Deliver(env, c, s, problem, today);
    assert r.transcript[|c.transcript|] == r.transcript[..|c2.transcript|][|c.transcript|];
  }
}
