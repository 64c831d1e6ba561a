/** The example-input parser of the Python runner: `parseInputAssignments`
    and its scanner `safeSplit` (python-runner.js). An example input such as
    `nums = [2,7,11,15], target = 9` is cut at top-level commas, each piece is
    split at `=`, list literals get their JSON keywords rewritten to Python
    ones, and the result is one `name = value` line per assignment. */
module InputParser {

  import opened Wrappers
  import opened JsStrings
  import Seqs

  // ---------------------------------------------------------------------------
  // The scanner of safeSplit
  // ---------------------------------------------------------------------------

  /** The lexical part of the scanner state: bracket depth (which may go
      negative) and the quote character of the string being read, if any. */
  datatype Lexer = Lexer(depth: int, quote: Option<char>)

  /** The whole loop state of safeSplit: finished pieces, where the current
      piece starts, and the lexical state. */
  datatype ScanState = ScanState(parts: seq<string>, start: nat, lexer: Lexer)

  const TopLevel := Lexer(0, None)

  predicate IsQuoteChar(c: char) {
    c == '"' || c == '\''
  }

  /** The character at `i` is preceded by a backslash. */
  predicate Escaped(str: string, i: nat)
    requires i < |str|
  {
    i > 0 && str[i - 1] == '\\'
  }

  /** What reading `str[i]` does to the lexical state. Only `[` and `{` open,
      only `]` and `}` close; parentheses are ordinary characters. Inside a
      quote nothing but the same, unescaped quote character matters. */
  function LexStep(str: string, i: nat, lx: Lexer): Lexer
    requires i < |str|
  {
    var c := str[i];
    match lx.quote
    case Some(q) => if c == q && !Escaped(str, i) then Lexer(lx.depth, None) else lx
    case None =>
      if IsQuoteChar(c) then Lexer(lx.depth, Some(c))
      else if c == '[' || c == '{' then Lexer(lx.depth + 1, None)
      else if c == ']' || c == '}' then Lexer(lx.depth - 1, None)
      else lx
  }

  /** The lexical state just before index `n` is read. */
  function LexAt(str: string, n: nat): Lexer
    requires n <= |str|
  {
    if n == 0 then TopLevel else LexStep(str, n - 1, LexAt(str, n - 1))
  }

  /** A comma that safeSplit cuts at: outside every quote, at depth zero. */
  predicate IsSeparator(str: string, i: nat)
    requires i < |str|
  {
    str[i] == ',' && LexAt(str, i) == TopLevel
  }

  /** One iteration of safeSplit's loop, branch for branch. */
  function Step(str: string, i: nat, st: ScanState): ScanState
    requires st.start <= i < |str|
  {
    var c := str[i];
    var lx := st.lexer;
    if lx.quote.Some? then
      (if c == lx.quote.value && !Escaped(str, i) then st.(lexer := Lexer(lx.depth, None)) else st)
    else if c == '"' || c == '\'' then st.(lexer := Lexer(lx.depth, Some(c)))
    else if c == '[' || c == '{' then st.(lexer := Lexer(lx.depth + 1, None))
    else if c == ']' || c == '}' then st.(lexer := Lexer(lx.depth - 1, None))
    else if c == ',' && lx.depth == 0 then
      ScanState(st.parts + [Trim(str[st.start..i])], i + 1, lx)
    else st
  }

  /** A step either cuts at a separator or only moves the lexical state on. */
  lemma StepCutsAtSeparators(str: string, i: nat, st: ScanState)
    requires st.start <= i < |str| && st.lexer == LexAt(str, i)
    ensures Step(str, i, st).lexer == LexAt(str, i + 1)
    ensures IsSeparator(str, i) ==>
              Step(str, i, st) == ScanState(st.parts + [Trim(str[st.start..i])], i + 1, st.lexer)
    ensures !IsSeparator(str, i) ==> Step(str, i, st).parts == st.parts && Step(str, i, st).start == st.start
  {
  }

  /** The loop state after the first `n` characters. */
  function Scan(str: string, n: nat): (st: ScanState)
    requires n <= |str|
    ensures st.start <= n
    ensures forall k :: 0 <= k < |st.parts| ==> IsTrimmed(st.parts[k])
  {
    if n == 0 then ScanState([], 0, TopLevel) else Step(str, n - 1, Scan(str, n - 1))
  }

  /** Every piece trimmed (`map(s => s.trim())`). */
  function TrimAll(pieces: seq<string>): (r: seq<string>)
    ensures |r| == |pieces|
    ensures forall k :: 0 <= k < |r| ==> r[k] == Trim(pieces[k])
  {
    if |pieces| == 0 then [] else [Trim(pieces[0])] + TrimAll(pieces[1..])
  }

  /** `safeSplit(str)`: the finished pieces, plus the rest of the string when
      anything follows the last cut. */
  function SafeSplit(str: string): (r: seq<string>)
    ensures str == "" ==> r == []
    ensures forall k :: 0 <= k < |r| ==> IsTrimmed(r[k])
  {
    var st := Scan(str, |str|);
    if st.start < |str| then st.parts + [Trim(str[st.start..])] else st.parts
  }

  /** The scanner cuts exactly at the separators: its pieces are the trimmed
      texts between consecutive separator commas, then the rest. */
  lemma SafeSplitIsPieces(str: string)
    ensures SafeSplit(str) == TrimAll(Pieces(str))
  {
    var st := Scan(str, |str|);
    ScanMatchesCuts(str, |str|);
    var r := SafeSplit(str);
    var t := TrimAll(Pieces(str));
    assert Pieces(str) == PiecesAt(str, Cuts(str, |str|));
    assert |r| == |t|;
    assert forall k :: 0 <= k < |r| ==> r[k] == t[k];
  }

  // ---------------------------------------------------------------------------
  // An independent description of the cut: the separator positions
  // ---------------------------------------------------------------------------

  /** The positions below `n` at which the string is cut, in increasing order. */
  function Cuts(str: string, n: nat): (c: seq<nat>)
    requires n <= |str|
    ensures Increasing(c, n)
    ensures forall k :: 0 <= k < |c| ==> IsSeparator(str, c[k])
    ensures forall i :: 0 <= i < n && IsSeparator(str, i) ==> i in c
  {
    if n == 0 then []
    else
      var c := Cuts(str, n - 1);
      if IsSeparator(str, n - 1) then IncreasingAppend(c, n - 1); c + [n - 1] else c
  }

  lemma IncreasingAppend(c: seq<nat>, x: nat)
    requires Increasing(c, x)
    ensures Increasing(c + [x], x + 1)
  {
  }

  /** Where piece `k` begins: after the previous cut, or at 0. */
  function PieceStart(c: seq<nat>, k: nat): nat
    requires k <= |c|
  {
    if k == 0 then 0 else c[k - 1] + 1
  }

  predicate Increasing(c: seq<nat>, bound: nat) {
    (forall k :: 0 <= k < |c| ==> c[k] < bound)
    && (forall k, l :: 0 <= k < l < |c| ==> c[k] < c[l])
  }

  /** The text of piece `k`: from its start up to cut `k`. */
  function PieceText(str: string, c: seq<nat>, k: nat): string
    requires k < |c| && PieceStart(c, k) <= c[k] <= |str|
  {
    str[PieceStart(c, k)..c[k]]
  }

  /** The first `m` pieces. */
  function Inner(str: string, c: seq<nat>, m: nat): (r: seq<string>)
    requires Increasing(c, |str|) && m <= |c|
    ensures |r| == m
    ensures forall k :: 0 <= k < m ==> r[k] == PieceText(str, c, k)
  {
    if m == 0 then [] else Inner(str, c, m - 1) + [PieceText(str, c, m - 1)]
  }

  /** The untrimmed text between consecutive separators; the text after the
      last one only when it is not empty. */
  function Pieces(str: string): seq<string> {
    PiecesAt(str, Cuts(str, |str|))
  }

  /** The text between the cuts `c`, then whatever follows the last cut. */
  function PiecesAt(str: string, c: seq<nat>): seq<string>
    requires Increasing(c, |str|)
  {
    var t := PieceStart(c, |c|);
    Inner(str, c, |c|) + (if t < |str| then [str[t..]] else [])
  }

  /** The scanner's state after `n` characters agrees with the separator
      description: its lexical part is `LexAt`, it resumes after the last cut,
      and its finished pieces are the trimmed texts between the cuts. */
  predicate ScanAgrees(str: string, n: nat)
    requires n <= |str|
  {
    var st := Scan(str, n);
    var c := Cuts(str, n);
    && st.lexer == LexAt(str, n)
    && st.start == PieceStart(c, |c|)
    && |st.parts| == |c|
    && forall k :: 0 <= k < |c| ==> st.parts[k] == Trim(PieceText(str, c, k))
  }

  lemma {:induction false} ScanMatchesCuts(str: string, n: nat)
    requires n <= |str|
    ensures ScanAgrees(str, n)
  {
    if n > 0 {
      ScanMatchesCuts(str, n - 1);
      var st := Scan(str, n - 1);
      StepCutsAtSeparators(str, n - 1, st);
      var c := Cuts(str, n - 1);
      var c' := Cuts(str, n);
      if IsSeparator(str, n - 1) {
        assert c' == c + [n - 1];
        var parts' := st.parts + [Trim(str[st.start..n - 1])];
        assert Scan(str, n).parts == parts';
        forall k | 0 <= k < |c'|
          ensures parts'[k] == Trim(PieceText(str, c', k))
        {
          if k < |c| {
            assert c'[k] == c[k];
            assert PieceStart(c', k) == PieceStart(c, k);
          } else {
            assert c'[k] == n - 1;
            assert PieceStart(c', k) == st.start;
          }
        }
      } else {
        assert c' == c;
      }
    }
  }

  /** Rejoining the pieces with commas gives the input back, except for a
      trailing separator comma, which leaves no empty last piece. */
  lemma PiecesJoin(str: string)
    ensures var c := Cuts(str, |str|);
            if |c| > 0 && c[|c| - 1] == |str| - 1
            then Join(Pieces(str), ",") + "," == str
            else Join(Pieces(str), ",") == str
  {
    JoinPiecesAt(str, Cuts(str, |str|));
  }

  lemma JoinPiecesAt(str: string, c: seq<nat>)
    requires Increasing(c, |str|)
    requires forall k :: 0 <= k < |c| ==> str[c[k]] == ','
    ensures if |c| > 0 && c[|c| - 1] == |str| - 1
            then Join(PiecesAt(str, c), ",") + "," == str
            else Join(PiecesAt(str, c), ",") == str
  {
    var t := PieceStart(c, |c|);
    var inner := Inner(str, c, |c|);
    if |c| == 0 {
      if |str| > 0 {
        assert PiecesAt(str, c) == [str[0..]];
      }
    } else {
      var last := c[|c| - 1];
      JoinInner(str, c, |c|);
      if t < |str| {
        JoinAppend(inner, str[t..]);
        assert str[..last] + "," + str[t..] == str;
      } else {
        assert PiecesAt(str, c) == inner;
        assert str[..last] + "," == str;
      }
    }
  }

  /** The first `m` pieces joined by commas make up the string up to the
      `m`-th cut. */
  lemma {:induction false} JoinInner(str: string, c: seq<nat>, m: nat)
    requires Increasing(c, |str|)
    requires forall k :: 0 <= k < |c| ==> str[c[k]] == ','
    requires m <= |c|
    ensures m > 0 ==> Join(Inner(str, c, m), ",") == str[..c[m - 1]]
  {
    if m > 1 {
      JoinInner(str, c, m - 1);
      var prev := Inner(str, c, m - 1);
      JoinAppend(prev, PieceText(str, c, m - 1));
      assert str[..c[m - 2]] + "," + str[c[m - 2] + 1..c[m - 1]] == str[..c[m - 1]];
    }
  }

  /** Appending one more piece to a join adds a comma and that piece. */
  lemma {:induction false} JoinAppend(parts: seq<string>, last: string)
    requires |parts| > 0
    ensures Join(parts + [last], ",") == Join(parts, ",") + "," + last
  {
    if |parts| == 1 {
      assert (parts + [last])[1..] == [last];
    } else {
      assert (parts + [last])[1..] == parts[1..] + [last];
      JoinAppend(parts[1..], last);
    }
  }

  // ---------------------------------------------------------------------------
  // What the scanner ignores
  // ---------------------------------------------------------------------------

  /** A comma read at non-zero depth or inside a quote never cuts. */
  lemma NestedCommaIsNoSeparator(str: string, i: nat)
    requires i < |str| && str[i] == ','
    ensures IsSeparator(str, i) <==> LexAt(str, i).depth == 0 && LexAt(str, i).quote.None?
  {
  }

  /** A quoted section opened at top level — from an opening quote up to the
      next unescaped occurrence of the same character — is opaque: nothing in
      it cuts, and after it the lexical state is what it was before. */
  lemma QuotedSectionIsOpaque(str: string, i: nat, j: nat)
    requires i < j < |str|
    requires LexAt(str, i).quote.None? && IsQuoteChar(str[i])
    requires forall k :: i < k < j ==> str[k] != str[i]
    requires str[j] == str[i] && !Escaped(str, j)
    ensures forall k :: i < k < j ==> !IsSeparator(str, k)
    ensures LexAt(str, j + 1) == LexAt(str, i)
  {
    InsideQuote(str, i, j, j);
    forall k | i < k < j
      ensures !IsSeparator(str, k)
    {
      InsideQuote(str, i, j, k);
    }
  }

  lemma {:induction false} InsideQuote(str: string, i: nat, j: nat, k: nat)
    requires i < k <= j < |str|
    requires LexAt(str, i).quote.None? && IsQuoteChar(str[i])
    requires forall m :: i < m < j ==> str[m] != str[i]
    ensures LexAt(str, k) == Lexer(LexAt(str, i).depth, Some(str[i]))
  {
    if k > i + 1 {
      InsideQuote(str, i, j, k - 1);
    }
  }

  /** Net number of opening minus closing brackets in quote-free text. */
  function Balance(s: string): int {
    if |s| == 0 then 0
    else
      var c := s[|s| - 1];
      Balance(s[..|s| - 1]) + (if c == '[' || c == '{' then 1 else if c == ']' || c == '}' then -1 else 0)
  }

  /** The balance of the text between an opening bracket at `i` and index `k`. */
  function BodyBalance(str: string, i: nat, k: nat): int
    requires i < k <= |str|
  {
    Balance(str[i + 1..k])
  }

  /** A bracketed section opened at depth `d >= 0` whose body holds no quote
      characters and never closes more than it opened is opaque: no comma in it
      cuts, and its closing bracket brings the depth back to `d`. This is why
      `matrix = [[1,2],[3,4]], k = 2` yields two pieces. */
  lemma BracketedSectionIsOpaque(str: string, i: nat, j: nat)
    requires i < j < |str|
    requires LexAt(str, i).quote.None? && LexAt(str, i).depth >= 0
    requires str[i] == '[' || str[i] == '{'
    requires forall k :: i < k < j ==> !IsQuoteChar(str[k])
    requires forall k :: i < k <= j ==> BodyBalance(str, i, k) >= 0
    requires BodyBalance(str, i, j) == 0 && (str[j] == ']' || str[j] == '}')
    ensures forall k :: i < k < j ==> !IsSeparator(str, k)
    ensures LexAt(str, j + 1) == LexAt(str, i)
  {
    InsideBrackets(str, i, j, j);
    forall k | i < k < j
      ensures !IsSeparator(str, k)
    {
      InsideBrackets(str, i, j, k);
    }
  }

  lemma {:induction false} InsideBrackets(str: string, i: nat, j: nat, k: nat)
    requires i < k <= j < |str|
    requires LexAt(str, i).quote.None?
    requires str[i] == '[' || str[i] == '{'
    requires forall m :: i < m < j ==> !IsQuoteChar(str[m])
    ensures LexAt(str, k) == Lexer(LexAt(str, i).depth + 1 + BodyBalance(str, i, k), None)
  {
    if k > i + 1 {
      InsideBrackets(str, i, j, k - 1);
      assert str[i + 1..k][..k - i - 2] == str[i + 1..k - 1];
    } else {
      assert str[i + 1..k] == [];
    }
  }

  // ---------------------------------------------------------------------------
  // From pieces to Python assignments
  // ---------------------------------------------------------------------------

  /** `name = value` with the value already in Python syntax. */
  datatype Assignment = Assignment(name: string, value: string)

  function Line(a: Assignment): string {
    a.name + " = " + a.value
  }

  /** The value rewrite: when the value looks like a list, every occurrence of
      `null`, `true` and `false` — even inside a word — becomes `None`, `True`,
      `False`; any other value is kept as it is. */
  function PyValue(v: string): (r: string)
    ensures !LooksLikeList(v) ==> r == v
    ensures LooksLikeList(v) ==> !Includes(r, "null") && !Includes(r, "true") && !Includes(r, "false")
    ensures LooksLikeList(v) ==>
              && |r| == |v|
              && (forall k :: 0 <= k <= |v| - 4 && OccursAt(v, "null", k) ==> OccursAt(r, "None", k))
              && (forall k :: 0 <= k <= |v| - 4 && OccursAt(v, "true", k) ==> OccursAt(r, "True", k))
              && (forall k :: 0 <= k <= |v| - 5 && OccursAt(v, "false", k) ==> OccursAt(r, "False", k))
              && (forall k :: 0 <= k < |v| && OutsideKeywords(v, k) ==> r[k] == v[k])
  {
    if LooksLikeList(v) then
      KeywordsRewritten(v);
      KeywordsReplacedInPlace(v);
      ReplaceAll(ReplaceAll(ReplaceAll(v, "null", "None"), "true", "True"), "false", "False")
    else v
  }

  /** `value.startsWith('[') && value.endsWith(']')`. */
  predicate LooksLikeList(v: string) {
    StartsWith(v, "[") && EndsWith(v, "]")
  }

  /** The three replacements leave no JSON keyword: none of `None`, `True`,
      `False` can be part of an occurrence of `null`, `true` or `false`. */
  lemma KeywordsRewritten(v: string)
    ensures var r := ReplaceAll(ReplaceAll(ReplaceAll(v, "null", "None"), "true", "True"), "false", "False");
            !Includes(r, "null") && !Includes(r, "true") && !Includes(r, "false")
  {
    ReplacementsCannotOverlap();
    var a := ReplaceAll(v, "null", "None");
    var b := ReplaceAll(a, "true", "True");
    ReplaceAllLeavesNone(v, "null", "None", "null");
    ReplaceAllLeavesNone(a, "true", "True", "null");
    ReplaceAllLeavesNone(a, "true", "True", "true");
    ReplaceAllLeavesNone(b, "false", "False", "null");
    ReplaceAllLeavesNone(b, "false", "False", "true");
    ReplaceAllLeavesNone(b, "false", "False", "false");
  }

  lemma ReplacementsCannotOverlap()
    ensures CannotOverlap("None", "null")
    ensures CannotOverlap("True", "null") && CannotOverlap("True", "true")
    ensures CannotOverlap("False", "null") && CannotOverlap("False", "true") && CannotOverlap("False", "false")
  {
    forall d | 1 <= d < 4 ensures !StartsWith("None"[d..], "null") && !StartsWith("null", "None"[d..]) {
      assert "None"[d..][0] != 'n' || "None"[d..][1] != 'u';
    }
    forall d | 1 <= d < 4 ensures !StartsWith("True"[d..], "null") && !StartsWith("null", "True"[d..])
                                && !StartsWith("True"[d..], "true") && !StartsWith("true", "True"[d..]) {
      assert "True"[d..][0] != 't';
      assert "True"[d..][0] != 'n';
    }
    forall d | 1 <= d < 5 ensures !StartsWith("False"[d..], "null") && !StartsWith("null", "False"[d..])
                                && !StartsWith("False"[d..], "true") && !StartsWith("true", "False"[d..])
                                && !StartsWith("False"[d..], "false") && !StartsWith("false", "False"[d..]) {
      assert "False"[d..][0] != 'n' && "False"[d..][0] != 't' && "False"[d..][0] != 'f';
    }
  }

  /** The three replacements work in place: the length is kept, every
      `null`, `true` and `false` of the value becomes `None`, `True` and
      `False` at the same position, and every character outside those
      words is kept. */
  lemma KeywordsReplacedInPlace(v: string)
    ensures var c := ReplaceAll(ReplaceAll(ReplaceAll(v, "null", "None"), "true", "True"), "false", "False");
            && |c| == |v|
            && (forall k :: 0 <= k <= |v| - 4 && OccursAt(v, "null", k) ==> OccursAt(c, "None", k))
            && (forall k :: 0 <= k <= |v| - 4 && OccursAt(v, "true", k) ==> OccursAt(c, "True", k))
            && (forall k :: 0 <= k <= |v| - 5 && OccursAt(v, "false", k) ==> OccursAt(c, "False", k))
            && (forall k :: 0 <= k < |v| && OutsideKeywords(v, k) ==> c[k] == v[k])
  {
    KeywordsApart();
    var a := ReplaceAll(v, "null", "None");
    var b := ReplaceAll(a, "true", "True");
    var c := ReplaceAll(b, "false", "False");
    ReplaceAllPointwise(v, "null", "None");
    ReplaceAllPointwise(a, "true", "True");
    ReplaceAllPointwise(b, "false", "False");
    forall k | 0 <= k <= |v| - 4 && OccursAt(v, "null", k) ensures OccursAt(c, "None", k) {
      KeptByReplace(a, "true", "True", b, "None", k);
      KeptByReplace(b, "false", "False", c, "None", k);
    }
    forall k | 0 <= k <= |v| - 4 && OccursAt(v, "true", k) ensures OccursAt(c, "True", k) {
      KeptByReplace(v, "null", "None", a, "true", k);
      KeptByReplace(b, "false", "False", c, "True", k);
    }
    forall k | 0 <= k <= |v| - 5 && OccursAt(v, "false", k) ensures OccursAt(c, "False", k) {
      KeptByReplace(v, "null", "None", a, "false", k);
      KeptByReplace(a, "true", "True", b, "false", k);
    }
    forall k | 0 <= k < |v| && OutsideKeywords(v, k) ensures c[k] == v[k]
    {
      forall j | k - 4 < j <= k ensures !OccursAt(b, "true", j) && !OccursAt(a, "true", j) {
        NotCreatedByReplace(v, "null", "None", a, "true", j);
        NotCreatedByReplace(a, "true", "True", b, "true", j);
      }
      forall j | k - 5 < j <= k ensures !OccursAt(b, "false", j) {
        NotCreatedByReplace(v, "null", "None", a, "false", j);
        NotCreatedByReplace(a, "true", "True", b, "false", j);
      }
    }
  }

  /** Position `k` of `v` is not part of a `null`, `true` or `false`. */
  predicate OutsideKeywords(v: string, k: int) {
    !InOccurrence(v, "null", k) && !InOccurrence(v, "true", k) && !InOccurrence(v, "false", k)
  }

  /** No two of the words involved can overlap, and none overlaps itself. */
  lemma KeywordsApart()
    ensures SelfApart("null") && SelfApart("true") && SelfApart("false")
    ensures Apart("None", "true") && Apart("None", "false") && Apart("True", "false")
    ensures Apart("true", "null") && Apart("false", "null") && Apart("false", "true")
    ensures Apart("true", "None") && Apart("true", "True") && Apart("false", "None") && Apart("false", "True")
  {
  }

  /** A value with no JSON keyword in it passes through unchanged, list or not. */
  lemma PyValueWithoutKeywords(v: string)
    requires !Includes(v, "null") && !Includes(v, "true") && !Includes(v, "false")
    ensures PyValue(v) == v
  {
    ReplaceAllAbsent(v, "null", "None");
    ReplaceAllAbsent(v, "true", "True");
    ReplaceAllAbsent(v, "false", "False");
  }

  /** One piece: dropped when it has no `=`; otherwise the name is the trimmed
      text before the first `=`, and the value the trimmed text between the
      first and the second `=` (anything after a second `=` is lost). */
  function ParseSegment(seg: string): (r: Option<Assignment>)
    ensures r.None? <==> '=' !in seg
    ensures r.Some? ==>
              var i := IndexOf(seg, '=').value;
              var rest := seg[i + 1..];
              var j := IndexOf(rest, '=').GetOr(|rest|);
              r.value == Assignment(Trim(seg[..i]), PyValue(Trim(rest[..j])))
  {
    if '=' !in seg then None
    else
      var pieces := Split(seg, '=');
      SplitHeadIsBeforeFirst(seg, '=');
      var i := IndexOf(seg, '=').value;
      var rest := seg[i + 1..];
      SplitHeadIsBeforeFirst(rest, '=');
      assert pieces[1] == Split(rest, '=')[0];
      assert rest[..|rest|] == rest;
      var name := Trim(pieces[0]);
      var value := Trim(pieces[1]);
      Some(Assignment(name, PyValue(value)))
  }

  /** `parseInputAssignments(inputStr)`; `None` stands for a missing or
      non-string input. */
  function ParseInputAssignments(input: Option<string>): (r: string)
    ensures input.None? || input == Some("") ==> r == ""
  {
    if input.None? || input.value == "" then ""
    else Join(Seqs.Map(Line, Seqs.FilterMap(SafeSplit(input.value), ParseSegment)), "\n")
  }

  /** The generated code is one `name = value` line per piece that holds an
      `=`, in the order of the pieces, and empty for a missing or empty input. */
  lemma ParseInputAssignmentsLines(input: Option<string>)
    ensures input.None? || input == Some("") ==> ParseInputAssignments(input) == ""
    ensures input.Some? ==>
              ParseInputAssignments(input)
                == Join(Seqs.Map(Line, Seqs.FilterMap(TrimAll(Pieces(input.value)), ParseSegment)), "\n")
  {
    if input.Some? {
      SafeSplitIsPieces(input.value);
    }
  }
}
