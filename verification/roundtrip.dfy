/** A reply written out in the marker layout `extractTranslation` reads, and the proof
    that `extractTranslation` reads every field of such a reply back. The renderer
    is the parser's partner: what it writes is exactly the layout the parser's
    markers, lookaheads and separators expect. */
module ParserRoundTrip {
  import opened Options
  import opened Text
  import opened Patterns
  import opened Parser

  /** Free text the renderer may place in a field: no `[`, no line break, and no
      leading or trailing whitespace (which `trim` would take away). */
  predicate Plain(s: string) {
    Unpadded(s) && forall i :: 0 <= i < |s| ==> s[i] != '[' && s[i] != '\n'
  }

  predicate NoColon(s: string) {
    forall i :: 0 <= i < |s| ==> s[i] != ':'
  }

  /** The grade of the learner's previous answer. */
  datatype Assessment = Assessment(score: nat, feedback: string)

  /** One tutor reply, field by field. */
  datatype Reply = Reply(
    messageType: MessageType,
    original: string,
    translation: string,
    assessment: Option<Assessment>,
    options: seq<string>,
    goalCompleted: bool)

  /** The replies the round trip is about: every field is free text that cannot be
      mistaken for a marker, the original text has no `:` (so the first `:::` ends
      it), the translation has no `:::`, and no option is empty. */
  ghost predicate WellFormed(t: Reply) {
    && Plain(t.original) && NoColon(t.original)
    && Plain(t.translation) && !Occurs(t.translation, PartSeparator)
    && (t.assessment.Some? ==> Plain(t.assessment.value.feedback))
    && forall k :: 0 <= k < |t.options| ==> Plain(t.options[k]) && t.options[k] != []
  }

  // ------------------------------------------------------------ rendering

  function GoalPart(goal: bool): string {
    if goal then GoalMarker + "\n" else ""
  }

  function Spaced(f: string): string {
    if f == [] then [] else " " + f
  }

  /** `SCORE: <n> <feedback>`, the score label first. */
  function ScoreLine(x: Assessment): string {
    "SCORE: " + DecimalString(x.score) + Spaced(x.feedback)
  }

  function EvaluationPart(a: Option<Assessment>): string {
    match a
    case None => ""
    case Some(x) => EvaluationMarker + ScoreLine(x) + "\n"
  }

  function TypeTag(m: MessageType): string {
    if m == Question then QuestionMarker else StatementMarker
  }

  function ContentPart(t: Reply): string {
    TypeTag(t.messageType) + t.original + PartSeparator + t.translation
  }

  /** The numbered list `\n<k>. <first>\n<k+1>. <second>…`. */
  function Items(opts: seq<string>, k: nat): string
    decreases |opts|
  {
    if opts == [] then "" else "\n" + DecimalString(k) + ". " + opts[0] + Items(opts[1..], k + 1)
  }

  function OptionsPart(opts: seq<string>): string {
    if opts == [] then "" else "\n" + OptionsMarker + Items(opts, 1)
  }

  /** The reply in the marker layout `extractTranslation` reads: goal flag, evaluation, content, options. */
  function Render(t: Reply): string {
    GoalPart(t.goalCompleted) + EvaluationPart(t.assessment) + (ContentPart(t) + OptionsPart(t.options))
  }

  function ScoreOf(a: Option<Assessment>): nat {
    if a.Some? then a.value.score else 0
  }

  function FeedbackOf(a: Option<Assessment>): string {
    if a.Some? then a.value.feedback else ""
  }

  /** What the parser should give back for `t`. */
  function Expected(t: Reply): ParsedTurn {
    ParsedTurn(t.messageType, t.original, t.translation, t.options,
      ScoreOf(t.assessment), FeedbackOf(t.assessment), FeedbackOf(t.assessment) != [],
      t.goalCompleted)
  }

  // ------------------------------------------------------ where `[` can be

  /** Every `[` in `s` is followed by a character of `leads`. Markers differ in the
      character after their `[`, so this bounds which markers can occur. */
  predicate LeadsIn(s: string, leads: set<char>) {
    forall i :: 0 <= i < |s| && s[i] == '[' ==> i + 1 < |s| && s[i + 1] in leads
  }

  predicate NoBracket(s: string) {
    forall i :: 0 <= i < |s| ==> s[i] != '['
  }

  predicate NoNewline(s: string) {
    forall i :: 0 <= i < |s| ==> s[i] != '\n'
  }

  lemma LeadsConcat(x: string, y: string, a: set<char>, b: set<char>)
    requires LeadsIn(x, a) && LeadsIn(y, b)
    ensures LeadsIn(x + y, a + b)
  {
    var s := x + y;
    forall i | 0 <= i < |s| && s[i] == '['
      ensures i + 1 < |s| && s[i + 1] in a + b
    {
      if i < |x| {
        assert x[i] == '[';
      } else {
        assert y[i - |x|] == '[';
      }
    }
  }

  lemma NoBracketLeads(s: string)
    requires NoBracket(s)
    ensures LeadsIn(s, {})
  {
  }

  /** A marker has its `[` in front and nowhere else. */
  lemma MarkerLeads(m: string)
    requires |m| >= 2 && m[0] == '[' && forall i :: 1 <= i < |m| ==> m[i] != '['
    ensures LeadsIn(m, {m[1]})
  {
  }

  /** A marker whose second character no `[` of `x` is followed by starts nowhere
      in `x`, whatever follows `x`. */
  lemma NoneBefore(x: string, y: string, m: string, a: set<char>)
    requires LeadsIn(x, a) && |m| >= 2 && m[0] == '[' && m[1] !in a
    ensures forall k :: 0 <= k < |x| ==> !StartsAt(x + y, m, k)
  {
  }

  lemma NotOccursByLead(s: string, m: string, a: set<char>)
    requires LeadsIn(s, a) && |m| >= 2 && m[0] == '[' && m[1] !in a
    ensures !Occurs(s, m)
  {
    NoneBefore(s, [], m, a);
    assert s + [] == s;
  }

  lemma FirstByLead(x: string, m: string, y: string, a: set<char>)
    requires LeadsIn(x, a) && |m| >= 2 && m[0] == '[' && m[1] !in a
    ensures FirstOccurrence(x + m + y, m, |x|)
  {
    var s := x + m + y;
    assert s == x + (m + y);
    NoneBefore(x, m + y, m, a);
    assert s[|x|..|x| + |m|] == m;
  }

  /** A marker at the front of `y` sits at `|x|` in `x + y`. */
  lemma StartsAfter(x: string, y: string, m: string)
    requires StartsAt(y, m, 0)
    ensures StartsAt(x + y, m, |x|)
  {
    assert (x + y)[|x|..|x| + |m|] == y[0..|m|];
  }

  // -------------------------------------------------------- the score line

  /** The score line is trimmed already and stays on one line. */
  lemma ScoreLineShape(x: Assessment)
    requires Plain(x.feedback)
    ensures Unpadded(ScoreLine(x)) && NoNewline(ScoreLine(x))
  {
    var s := ScoreLine(x);
    var d := DecimalString(x.score);
    var tail := Spaced(x.feedback);
    assert s == "SCORE: " + d + tail;
    assert s[0] == 'S';
    if tail == [] {
      assert s[|s| - 1] == d[|d| - 1];
    } else {
      assert s[|s| - 1] == x.feedback[|x.feedback| - 1];
    }
    forall i | 0 <= i < |s|
      ensures s[i] != '\n'
    {
      if 7 + |d| <= i {
        assert s[i] == tail[i - 7 - |d|];
      } else if 7 <= i {
        assert s[i] == d[i - 7];
      }
    }
  }

  /** The score label matches at the front of the score line, taking one space and
      all the digits of the numeral. */
  lemma ScoreLineLabel(x: Assessment)
    requires Plain(x.feedback)
    ensures Search(ScoreLabel, ScoreLine(x), 0) == Some(0)
    ensures 1 == RunLength(ScoreLine(x), 0 + 6, Whitespace)
    ensures MatchEnd(ScoreLabel, ScoreLine(x), 0).value == 0 + 6 + 1 + |DecimalString(x.score)|
  {
    var s := ScoreLine(x);
    var d := DecimalString(x.score);
    assert s == "SCORE: " + d + Spaced(x.feedback);
    assert s[0..6] == "SCORE:";
    assert ToLowerAscii("SCORE:") == ScoreWord;
    assert s[6] == ' ';
    forall j | 7 <= j < 7 + |d|
      ensures IsDigit(s[j])
    {
      assert s[j] == d[j - 7];
    }
    DigitIsNotSpace(s[7]);
    RunLengthExact(s, 6, 1, Whitespace);
    assert |s| == 7 + |d| || s[7 + |d|] == ' ';
    RunLengthExact(s, 7, |d|, Digit);
    SearchFindsLeftmost(ScoreLabel, s, 0);
  }

  /** Where `ScoreAndFeedback` finds the score and the feedback in the score line. */
  lemma ScoreLineParts(x: Assessment)
    requires Plain(x.feedback)
    ensures ScoreAndFeedback(ScoreLine(x)).score == DecimalValue(DecimalString(x.score))
    ensures ScoreAndFeedback(ScoreLine(x)).feedback == Trim(Spaced(x.feedback))
  {
    ScoreLineLabel(x);
    ScoreValueFrom(ScoreLine(x), 0, 1, |DecimalString(x.score)|);
    FeedbackFrom(ScoreLine(x), 0, 0 + 6 + 1 + |DecimalString(x.score)|);
    ScoreLineSlices(x);
  }

  lemma ScoreLineSlices(x: Assessment)
    ensures 7 + |DecimalString(x.score)| <= |ScoreLine(x)|
    ensures ScoreLine(x)[7..7 + |DecimalString(x.score)|] == DecimalString(x.score)
    ensures ScoreLine(x)[..0] + ScoreLine(x)[7 + |DecimalString(x.score)|..] == Spaced(x.feedback)
  {
    var s := ScoreLine(x);
    var d := DecimalString(x.score);
    assert s == "SCORE: " + d + Spaced(x.feedback);
  }

  /** `ScoreAndFeedback` reads the score and the feedback back from the score line. */
  lemma ScoreLineRoundTrip(x: Assessment)
    requires Plain(x.feedback)
    ensures ScoreAndFeedback(ScoreLine(x)) == Grade(x.score, x.feedback)
  {
    var f := x.feedback;
    ScoreLineParts(x);
    DecimalRoundTrip(x.score);
    if f == [] {
      TrimUnpadded([]);
    } else {
      assert AllSpace(" ");
      TrimAfterSpace(" ", f);
    }
  }

  // ---------------------------------------------------- the evaluation step

  /** What is left in front of the content once the evaluation block is cut out
      and the text trimmed. */
  function RestHead(goal: bool, a: Option<Assessment>): string {
    if a.None? then GoalPart(goal) else if goal then GoalMarker + "\n\n" else ""
  }

  lemma HeadLeads(goal: bool, a: Option<Assessment>)
    ensures LeadsIn(GoalPart(goal), {'G'}) && LeadsIn(RestHead(goal, a), {'G'})
  {
    MarkerLeads(GoalMarker);
    LeadsConcat(GoalMarker, "\n", {'G'}, {});
    LeadsConcat(GoalMarker, "\n\n", {'G'}, {});
  }

  /** The rendered evaluation block is the one the parser's regular expression finds:
      it starts at the first `[EVALUATION]` and its capture, the score line, stops at
      the line break in front of the type marker. */
  lemma EvaluationBlockRendered(g: string, line: string, co: string)
    requires LeadsIn(g, {'G'}) && NoNewline(line) && IsTypeMarker(co, 0)
    ensures EvaluationBlockAt(g + (EvaluationMarker + line + "\n") + co, |g|,
      |g| + |EvaluationMarker| + |line|)
  {
    var text := g + (EvaluationMarker + line + "\n") + co;
    var body := |g| + |EvaluationMarker|;
    var j := body + |line|;
    EvaluationMarkerFirst(g, line, co);
    StopAfterLine(g, line, co);
    forall k | body <= k < j
      ensures !IsEvaluationStop(text, k)
    {
      assert text[k] == line[k - body];
      NotAStop(text, k);
    }
  }

  lemma EvaluationMarkerFirst(g: string, line: string, co: string)
    requires LeadsIn(g, {'G'})
    ensures FirstOccurrence(g + (EvaluationMarker + line + "\n") + co, EvaluationMarker, |g|)
  {
    assert g + (EvaluationMarker + line + "\n") + co == g + EvaluationMarker + (line + "\n" + co);
    FirstByLead(g, EvaluationMarker, line + "\n" + co, {'G'});
  }

  /** The line break after the score line, with the type marker behind it, is a stop. */
  lemma StopAfterLine(g: string, line: string, co: string)
    requires IsTypeMarker(co, 0)
    ensures IsEvaluationStop(g + (EvaluationMarker + line + "\n") + co, |g| + |EvaluationMarker| + |line|)
  {
    var pre := g + EvaluationMarker + line;
    assert g + (EvaluationMarker + line + "\n") + co == pre + ("\n" + co);
    if StartsAt(co, QuestionMarker, 0) {
      assert ("\n" + co)[0..|"\n" + QuestionMarker|] == "\n" + co[0..|QuestionMarker|];
      StartsAfter(pre, "\n" + co, "\n" + QuestionMarker);
    } else {
      assert ("\n" + co)[0..|"\n" + StatementMarker|] == "\n" + co[0..|StatementMarker|];
      StartsAfter(pre, "\n" + co, "\n" + StatementMarker);
    }
  }

  /** Every stop begins with a line break. */
  lemma NotAStop(s: string, k: nat)
    requires k < |s| && s[k] != '\n'
    ensures !IsEvaluationStop(s, k)
  {
    NotAtLineBreak(s, "\n" + QuestionMarker, k);
    NotAtLineBreak(s, "\n" + StatementMarker, k);
    NotAtLineBreak(s, "\n" + OptionsMarker, k);
  }

  /** Without an assessment nothing is cut and nothing trimmed. */
  lemma EvaluateWithout(goal: bool, co: string)
    requires LeadsIn(co, {'q', 's', 'O'})
    ensures Evaluate(GoalPart(goal) + EvaluationPart(None) + co)
      == Evaluated(0, "", RestHead(goal, None) + co)
  {
    var g := GoalPart(goal);
    HeadLeads(goal, None);
    LeadsConcat(g, co, {'G'}, {'q', 's', 'O'});
    assert g + EvaluationPart(None) + co == g + co;
    NotOccursByLead(g + co, EvaluationMarker, {'G', 'q', 's', 'O'});
  }

  /** `Evaluate` on a text whose evaluation block is known. */
  lemma EvaluateAt(text: string, p: nat, j: nat)
    requires EvaluationBlockAt(text, p, j) && j > p + |EvaluationMarker|
    ensures Evaluate(text) == Evaluated(
      ScoreAndFeedback(Trim(text[p + |EvaluationMarker|..j])).score,
      ScoreAndFeedback(Trim(text[p + |EvaluationMarker|..j])).feedback,
      Trim(text[..p] + text[j..]))
  {
  }

  /** Cutting the block leaves the goal marker, if any, and a line break in front of
      the content; `trim` takes that line break away when nothing precedes it. */
  lemma RestTrimmed(goal: bool, x: Assessment, co: string)
    requires IsTypeMarker(co, 0) && Unpadded(co)
    ensures Trim(GoalPart(goal) + ("\n" + co)) == RestHead(goal, Some(x)) + co
  {
    if goal {
      GoalLineKept(co);
    } else {
      LeadingBreakTrimmed(co);
    }
  }

  lemma GoalLineKept(co: string)
    requires IsTypeMarker(co, 0) && Unpadded(co)
    ensures Trim(GoalMarker + "\n" + ("\n" + co)) == GoalMarker + "\n\n" + co
  {
    var s := GoalMarker + "\n" + ("\n" + co);
    assert s == GoalMarker + "\n\n" + co;
    assert s[0] == '[';
    assert s[|s| - 1] == co[|co| - 1];
    TrimUnpadded(s);
  }

  lemma LeadingBreakTrimmed(co: string)
    requires Unpadded(co)
    ensures Trim("" + ("\n" + co)) == co
  {
    assert "" + ("\n" + co) == "\n" + co;
    assert AllSpace("\n");
    TrimAfterSpace("\n", co);
  }

  lemma BlockSlices(g: string, line: string, co: string)
    ensures var text := g + (EvaluationMarker + line + "\n") + co;
      var j := |g| + |EvaluationMarker| + |line|;
      && text[..|g|] == g
      && text[|g| + |EvaluationMarker|..j] == line
      && text[j..] == "\n" + co
  {
  }

  /** With an assessment, the score line gives score and feedback, and the block
      and the line break after it are cut out. */
  lemma EvaluateWith(goal: bool, x: Assessment, co: string)
    requires Plain(x.feedback) && IsTypeMarker(co, 0) && Unpadded(co)
    ensures Evaluate(GoalPart(goal) + EvaluationPart(Some(x)) + co)
      == Evaluated(x.score, x.feedback, RestHead(goal, Some(x)) + co)
  {
    var g := GoalPart(goal);
    var line := ScoreLine(x);
    assert g + EvaluationPart(Some(x)) + co == g + (EvaluationMarker + line + "\n") + co;
    HeadLeads(goal, Some(x));
    ScoreLineShape(x);
    BlockEvaluated(g, line, co);
    TrimUnpadded(line);
    ScoreLineRoundTrip(x);
    RestTrimmed(goal, x, co);
  }

  /** A non-empty evaluation line between the head and the content: the parser grades
      the trimmed line and keeps the head and the line break in front of the content. */
  lemma BlockEvaluated(g: string, line: string, co: string)
    requires LeadsIn(g, {'G'}) && NoNewline(line) && line != [] && IsTypeMarker(co, 0)
    ensures Evaluate(g + (EvaluationMarker + line + "\n") + co) == Evaluated(
      ScoreAndFeedback(Trim(line)).score, ScoreAndFeedback(Trim(line)).feedback, Trim(g + ("\n" + co)))
  {
    var text := g + (EvaluationMarker + line + "\n") + co;
    var p := |g|;
    var j := p + |EvaluationMarker| + |line|;
    EvaluationBlockRendered(g, line, co);
    EvaluateAt(text, p, j);
    BlockSlices(g, line, co);
  }

  // ------------------------------------------------------ content and options

  lemma ItemsNoBracket(opts: seq<string>, k: nat)
    requires forall i :: 0 <= i < |opts| ==> Plain(opts[i])
    ensures NoBracket(Items(opts, k))
    decreases |opts|
  {
    if opts != [] {
      var d := DecimalString(k);
      ItemsNoBracket(opts[1..], k + 1);
      var s := Items(opts, k);
      var tail := Items(opts[1..], k + 1);
      assert s == "\n" + d + ". " + opts[0] + tail;
      forall i | 0 <= i < |s|
        ensures s[i] != '['
      {
        if i >= 3 + |d| + |opts[0]| {
          assert s[i] == tail[i - 3 - |d| - |opts[0]|];
        } else if i >= 3 + |d| {
          assert s[i] == opts[0][i - 3 - |d|];
        } else if 1 <= i < 1 + |d| {
          assert s[i] == d[i - 1];
        }
      }
    }
  }

  /** The numbered list ends with the last character of the last option. */
  lemma {:induction false} ItemsLast(opts: seq<string>, k: nat)
    requires opts != [] && opts[|opts| - 1] != []
    ensures |Items(opts, k)| > 0
    ensures Items(opts, k)[|Items(opts, k)| - 1] == opts[|opts| - 1][|opts[|opts| - 1]| - 1]
    decreases |opts|
  {
    var d := DecimalString(k);
    var s := Items(opts, k);
    var tail := Items(opts[1..], k + 1);
    assert s == "\n" + d + ". " + opts[0] + tail;
    if |opts| == 1 {
      assert tail == "";
    } else {
      ItemsLast(opts[1..], k + 1);
      assert opts[1..][|opts[1..]| - 1] == opts[|opts| - 1];
    }
  }

  function TagChar(m: MessageType): char {
    if m == Question then 'q' else 's'
  }

  /** The only `[` of the content part is the one of its type marker. */
  lemma ContentLeads(t: Reply)
    requires WellFormed(t)
    ensures LeadsIn(ContentPart(t), {TagChar(t.messageType)})
  {
    var tag := TypeTag(t.messageType);
    MarkerLeads(tag);
    assert tag[1] == TagChar(t.messageType);
    var body := t.original + PartSeparator + t.translation;
    assert NoBracket(body) by {
      forall i | 0 <= i < |body|
        ensures body[i] != '['
      {
        if i >= |t.original| + 3 {
          assert body[i] == t.translation[i - |t.original| - 3];
        } else if i < |t.original| {
          assert body[i] == t.original[i];
        }
      }
    }
    LeadsConcat(tag, body, {tag[1]}, {});
    assert ContentPart(t) == tag + body;
  }

  lemma OptionsLeads(opts: seq<string>)
    requires forall i :: 0 <= i < |opts| ==> Plain(opts[i])
    ensures LeadsIn(OptionsPart(opts), {'O'})
  {
    if opts != [] {
      ItemsNoBracket(opts, 1);
      MarkerLeads(OptionsMarker);
      LeadsConcat("\n", OptionsMarker, {}, {'O'});
      LeadsConcat("\n" + OptionsMarker, Items(opts, 1), {'O'}, {});
    }
  }

  /** What the evaluation step needs of the content and options parts. */
  lemma ContentOptionsShape(t: Reply)
    requires WellFormed(t)
    ensures var co := ContentPart(t) + OptionsPart(t.options);
      IsTypeMarker(co, 0) && Unpadded(co) && LeadsIn(co, {'q', 's', 'O'})
  {
    ContentOptionsTagged(t);
    ContentOptionsUnpadded(t);
    ContentLeads(t);
    OptionsLeads(t.options);
    LeadsConcat(ContentPart(t), OptionsPart(t.options), {TagChar(t.messageType)}, {'O'});
  }

  lemma ContentOptionsTagged(t: Reply)
    ensures IsTypeMarker(ContentPart(t) + OptionsPart(t.options), 0)
  {
    var co := ContentPart(t) + OptionsPart(t.options);
    var tag := TypeTag(t.messageType);
    assert co[..|tag|] == tag;
  }

  lemma ContentOptionsUnpadded(t: Reply)
    requires WellFormed(t)
    ensures Unpadded(ContentPart(t) + OptionsPart(t.options))
  {
    var cp := ContentPart(t);
    var op := OptionsPart(t.options);
    var co := cp + op;
    assert co[0] == '[';
    if op == [] {
      assert co == cp;
      if t.translation == [] {
        assert co[|co| - 1] == ':';
      } else {
        assert co[|co| - 1] == t.translation[|t.translation| - 1];
      }
    } else {
      ItemsLast(t.options, 1);
      var items := Items(t.options, 1);
      assert co == cp + "\n" + OptionsMarker + items;
      assert co[|co| - 1] == items[|items| - 1];
    }
  }

  // ------------------------------------------------- after the evaluation step

  /** `split(':::')` of the rendered content gives the two texts back. */
  lemma PartsRendered(o: string, tr: string)
    requires Plain(o) && NoColon(o) && Plain(tr) && !Occurs(tr, PartSeparator)
    ensures Parts(o + PartSeparator + tr) == (o, tr)
  {
    var cap := o + PartSeparator + tr;
    var a := |o|;
    forall i | 0 <= i < a
      ensures !StartsAt(cap, PartSeparator, i)
    {
      assert cap[i] == o[i];
    }
    assert cap[a..a + 3] == PartSeparator;
    assert FirstOccurrence(cap, PartSeparator, a);
    forall i: nat | a + 3 <= i && StartsAt(cap, PartSeparator, i)
      ensures false
    {
      assert cap[i..i + 3] == tr[i - a - 3..i - a];
      assert StartsAt(tr, PartSeparator, i - a - 3);
    }
    assert LastOccurrence(cap, PartSeparator, a);
    assert cap[..a] == o;
    assert cap[a + 3..] == tr;
    TrimUnpadded(o);
    TrimUnpadded(tr);
  }

  /** The rendered content block is the one the parser's regular expression finds:
      it follows the first type marker and stops at `\n[OPTIONS]` or at the end. */
  lemma ContentBlockRendered(h: string, t: Reply)
    requires LeadsIn(h, {'G'}) && WellFormed(t)
    ensures var rest := h + ContentPart(t) + OptionsPart(t.options);
      ContentBlockAt(rest, |h|, |h| + |TypeTag(t.messageType)|, |h| + |ContentPart(t)|)
  {
    var rest := h + ContentPart(t) + OptionsPart(t.options);
    var body := |h| + |TypeTag(t.messageType)|;
    var j := |h| + |ContentPart(t)|;
    var text := t.original + PartSeparator + t.translation;
    TypeMarkerFirst(h, t);
    ContentStopAfter(h, t);
    ContentSlice(h, t);
    ContentTextOneLine(t);
    forall k | body <= k < j
      ensures !StartsAt(rest, "\n" + OptionsMarker, k)
    {
      assert rest[k] == text[k - body];
      NotAtLineBreak(rest, "\n" + OptionsMarker, k);
    }
  }

  /** The type marker of the content part is the first one in the working text. */
  lemma TypeMarkerFirst(h: string, t: Reply)
    requires LeadsIn(h, {'G'})
    ensures var rest := h + ContentPart(t) + OptionsPart(t.options);
      && IsTypeMarker(rest, |h|)
      && (forall k :: 0 <= k < |h| ==> !IsTypeMarker(rest, k))
      && (StartsAt(rest, StatementMarker, |h|) <==> t.messageType == Statement)
  {
    var tag := TypeTag(t.messageType);
    var cp := ContentPart(t);
    var op := OptionsPart(t.options);
    var rest := h + cp + op;
    assert rest == h + (cp + op);
    assert (cp + op)[0..|tag|] == tag;
    StartsAfter(h, cp + op, tag);
    assert rest[|h| + 1] == tag[1];
    NoneBefore(h, cp + op, StatementMarker, {'G'});
    NoneBefore(h, cp + op, QuestionMarker, {'G'});
  }

  /** The content block ends where the options part starts. */
  lemma ContentStopAfter(h: string, t: Reply)
    ensures var rest := h + ContentPart(t) + OptionsPart(t.options);
      var j := |h| + |ContentPart(t)|;
      j <= |rest| && (j == |rest| || StartsAt(rest, "\n" + OptionsMarker, j))
  {
    var op := OptionsPart(t.options);
    if op != [] {
      assert op[0..|"\n" + OptionsMarker|] == "\n" + OptionsMarker;
      StartsAfter(h + ContentPart(t), op, "\n" + OptionsMarker);
    }
  }

  lemma ContentTextOneLine(t: Reply)
    requires WellFormed(t)
    ensures NoNewline(t.original + PartSeparator + t.translation)
  {
    var text := t.original + PartSeparator + t.translation;
    forall i | 0 <= i < |text|
      ensures text[i] != '\n'
    {
      if i >= |t.original| + 3 {
        assert text[i] == t.translation[i - |t.original| - 3];
      } else if i < |t.original| {
        assert text[i] == t.original[i];
      }
    }
  }

  /** A pattern that begins with a line break starts nowhere else. */
  lemma NotAtLineBreak(s: string, m: string, k: nat)
    requires k < |s| && s[k] != '\n' && |m| > 0 && m[0] == '\n'
    ensures !StartsAt(s, m, k)
  {
  }

  lemma ContentSlice(h: string, t: Reply)
    ensures var rest := h + ContentPart(t) + OptionsPart(t.options);
      rest[|h| + |TypeTag(t.messageType)|..|h| + |ContentPart(t)|]
        == t.original + PartSeparator + t.translation
  {
  }

  /** The content step reads the original text and the translation back. */
  lemma ContentFound(h: string, t: Reply)
    requires LeadsIn(h, {'G'}) && WellFormed(t)
    ensures Content(h + ContentPart(t) + OptionsPart(t.options)) == (t.original, t.translation)
  {
    ContentBlockRendered(h, t);
    ContentSlice(h, t);
    PartsRendered(t.original, t.translation);
  }

  /** `[question]` is in the working text exactly when the reply is a question. */
  lemma TypeFound(h: string, t: Reply)
    requires LeadsIn(h, {'G'}) && WellFormed(t)
    ensures Occurs(h + ContentPart(t) + OptionsPart(t.options), QuestionMarker)
      <==> t.messageType == Question
  {
    var cp := ContentPart(t);
    var op := OptionsPart(t.options);
    var rest := h + cp + op;
    if t.messageType == Question {
      assert rest == h + (cp + op);
      assert (cp + op)[0..|QuestionMarker|] == QuestionMarker;
      StartsAfter(h, cp + op, QuestionMarker);
    } else {
      ContentLeads(t);
      OptionsLeads(t.options);
      LeadsConcat(h, cp, {'G'}, {'s'});
      LeadsConcat(h + cp, op, {'G', 's'}, {'O'});
      NotOccursByLead(rest, QuestionMarker, {'G', 's', 'O'});
    }
  }

  /** A numbered-item separator right after `pre`, which has no line break, is the
      first match of the item pattern, and it ends after the space. */
  lemma ItemHeader(pre: string, d: string, post: string)
    requires |d| > 0 && AllDigits(d) && NoNewline(pre)
    ensures var s := pre + ("\n" + d + ". " + post);
      && Search(ItemNumber, s, 0) == Some(|pre|)
      && MatchEnd(ItemNumber, s, |pre|) == Some(|pre| + 3 + |d|)
  {
    var s := pre + ("\n" + d + ". " + post);
    var i := |pre|;
    assert s[i] == '\n';
    forall j | i + 1 <= j < i + 1 + |d|
      ensures InClass(s[j], Digit)
    {
      assert s[j] == d[j - i - 1];
    }
    assert s[i + 1 + |d|] == '.';
    assert s[i + 2 + |d|] == ' ';
    RunLengthExact(s, i + 1, |d|, Digit);
    forall j | 0 <= j < i
      ensures !MatchesAt(ItemNumber, s, j)
    {
      assert s[j] == pre[j];
    }
    SearchFindsLeftmost(ItemNumber, s, i);
  }

  /** Text with no line break holds no item separator. */
  lemma SplitNoItem(piece: string)
    requires NoNewline(piece)
    ensures Split(ItemNumber, piece) == [piece]
  {
    forall j | 0 <= j <= |piece|
      ensures !MatchesAt(ItemNumber, piece, j)
    {
    }
  }

  /** One item separator: the piece before it, then the split of what follows. */
  lemma SplitAtItem(piece: string, d: string, post: string)
    requires |d| > 0 && AllDigits(d) && NoNewline(piece)
    ensures Split(ItemNumber, piece + ("\n" + d + ". " + post)) == [piece] + Split(ItemNumber, post)
  {
    var s := piece + ("\n" + d + ". " + post);
    var e := |piece| + 3 + |d|;
    ItemHeader(piece, d, post);
    SplitStep(ItemNumber, s, |piece|, e);
    assert s[..|piece|] == piece;
    assert s[e..] == post;
  }

  /** Splitting a piece followed by a numbered list at the item separators gives the
      piece and then the options. */
  lemma {:induction false} SplitItems(piece: string, opts: seq<string>, k: nat)
    requires NoNewline(piece)
    requires forall i :: 0 <= i < |opts| ==> NoNewline(opts[i])
    ensures Split(ItemNumber, piece + Items(opts, k)) == [piece] + opts
    decreases |opts|
  {
    if opts == [] {
      assert piece + Items(opts, k) == piece;
      SplitNoItem(piece);
    } else {
      var d := DecimalString(k);
      var post := opts[0] + Items(opts[1..], k + 1);
      ItemsCons(opts, k);
      SplitAtItem(piece, d, post);
      SplitItems(opts[0], opts[1..], k + 1);
      assert [opts[0]] + opts[1..] == opts;
    }
  }

  lemma ItemsCons(opts: seq<string>, k: nat)
    requires opts != []
    ensures Items(opts, k) == "\n" + DecimalString(k) + ". " + (opts[0] + Items(opts[1..], k + 1))
  {
  }

  /** Dropping the empty piece in front and trimming the rest gives the options. */
  lemma CleanItems(opts: seq<string>)
    requires forall i :: 0 <= i < |opts| ==> Plain(opts[i]) && opts[i] != []
    ensures TrimEach(DropEmpty([""] + opts)) == opts
  {
    DropLeadingEmpty(opts);
    TrimPlain(opts);
  }

  lemma DropLeadingEmpty(opts: seq<string>)
    requires forall i :: 0 <= i < |opts| ==> opts[i] != []
    ensures DropEmpty([""] + opts) == opts
  {
    assert ([""] + opts)[1..] == opts;
  }

  lemma TrimPlain(opts: seq<string>)
    requires forall i :: 0 <= i < |opts| ==> Plain(opts[i])
    ensures TrimEach(opts) == opts
  {
    forall i | 0 <= i < |opts|
      ensures Trim(opts[i]) == opts[i]
    {
      TrimUnpadded(opts[i]);
    }
  }

  /** The options step reads the options back. */
  lemma OptionsFound(h: string, t: Reply)
    requires LeadsIn(h, {'G'}) && WellFormed(t)
    ensures OptionList(h + ContentPart(t) + OptionsPart(t.options)) == t.options
  {
    var cp := ContentPart(t);
    var op := OptionsPart(t.options);
    var rest := h + cp + op;
    ContentLeads(t);
    LeadsConcat(h, cp, {'G'}, {TagChar(t.messageType)});
    if t.options == [] {
      assert rest == h + cp;
      NotOccursByLead(rest, OptionsMarker, {'G', TagChar(t.messageType)});
    } else {
      var items := Items(t.options, 1);
      LeadsConcat(h + cp, "\n", {'G', TagChar(t.messageType)}, {});
      assert rest == (h + cp + "\n") + OptionsMarker + items;
      FirstByLead(h + cp + "\n", OptionsMarker, items, {'G', TagChar(t.messageType)});
      var o := |h + cp + "\n"|;
      assert rest[o + |OptionsMarker|..] == items;
      forall i | 0 <= i < |t.options|
        ensures NoNewline(t.options[i])
      {
      }
      SplitItems("", t.options, 1);
      assert "" + items == items;
      CleanItems(t.options);
    }
  }

  // ------------------------------------------------------------ the round trip

  /** `[GOAL_COMPLETED]` is in the rendered reply exactly when the goal flag is set. */
  lemma GoalFound(t: Reply)
    requires WellFormed(t)
    ensures Occurs(Render(t), GoalMarker) <==> t.goalCompleted
  {
    if t.goalCompleted {
      GoalMarkerInFront(t);
    } else {
      ContentOptionsShape(t);
      GoalMarkerAbsent(t);
    }
  }

  lemma GoalMarkerInFront(t: Reply)
    requires t.goalCompleted
    ensures StartsAt(Render(t), GoalMarker, 0)
  {
    RenderParts(t);
    assert Render(t)[0..|GoalMarker|] == GoalMarker;
  }

  lemma GoalMarkerAbsent(t: Reply)
    requires !t.goalCompleted
    requires t.assessment.Some? ==> Plain(t.assessment.value.feedback)
    requires LeadsIn(ContentPart(t) + OptionsPart(t.options), {'q', 's', 'O'})
    ensures !Occurs(Render(t), GoalMarker)
  {
    var ev := EvaluationPart(t.assessment);
    var co := ContentPart(t) + OptionsPart(t.options);
    RenderParts(t);
    EvaluationLeads(t.assessment);
    LeadsConcat(ev, co, {'E'}, {'q', 's', 'O'});
    assert Render(t) == ev + co;
    NoGoalMarker(Render(t));
  }

  lemma NoGoalMarker(s: string)
    requires LeadsIn(s, {'E', 'q', 's', 'O'})
    ensures !Occurs(s, GoalMarker)
  {
    NotOccursByLead(s, GoalMarker, {'E', 'q', 's', 'O'});
  }

  lemma EvaluationLeads(a: Option<Assessment>)
    requires a.Some? ==> Plain(a.value.feedback)
    ensures LeadsIn(EvaluationPart(a), {'E'})
  {
    if a.Some? {
      var line := ScoreLine(a.value);
      ScoreLineBrackets(a.value);
      MarkerLeads(EvaluationMarker);
      LeadsConcat(EvaluationMarker, line, {'E'}, {});
      LeadsConcat(EvaluationMarker + line, "\n", {'E'}, {});
    }
  }

  lemma ScoreLineBrackets(x: Assessment)
    requires Plain(x.feedback)
    ensures LeadsIn(ScoreLine(x), {})
  {
    var s := ScoreLine(x);
    var d := DecimalString(x.score);
    var tail := Spaced(x.feedback);
    assert s == "SCORE: " + d + tail;
    forall i | 0 <= i < |s|
      ensures s[i] != '['
    {
      if 7 + |d| <= i {
        assert s[i] == tail[i - 7 - |d|];
      } else if 7 <= i {
        assert s[i] == d[i - 7];
      }
    }
  }

  lemma RenderParts(t: Reply)
    ensures Render(t) == GoalPart(t.goalCompleted) + EvaluationPart(t.assessment)
      + (ContentPart(t) + OptionsPart(t.options))
  {
  }

  /** The evaluation step on a rendered reply. */
  lemma EvaluateRendered(t: Reply)
    requires WellFormed(t)
    ensures Evaluate(Render(t)) == Evaluated(ScoreOf(t.assessment), FeedbackOf(t.assessment),
      RestHead(t.goalCompleted, t.assessment) + ContentPart(t) + OptionsPart(t.options))
  {
    var co := ContentPart(t) + OptionsPart(t.options);
    ContentOptionsShape(t);
    EvaluateHead(t.goalCompleted, t.assessment, co);
    assert RestHead(t.goalCompleted, t.assessment) + co
      == RestHead(t.goalCompleted, t.assessment) + ContentPart(t) + OptionsPart(t.options);
  }

  lemma EvaluateHead(goal: bool, a: Option<Assessment>, co: string)
    requires a.Some? ==> Plain(a.value.feedback)
    requires IsTypeMarker(co, 0) && Unpadded(co) && LeadsIn(co, {'q', 's', 'O'})
    ensures Evaluate(GoalPart(goal) + EvaluationPart(a) + co)
      == Evaluated(ScoreOf(a), FeedbackOf(a), RestHead(goal, a) + co)
  {
    match a
    case None =>
      EvaluateWithout(goal, co);
    case Some(x) =>
      EvaluateWith(goal, x, co);
  }

  /** `extractTranslation` reads back every field of a well-formed reply: the type,
      both texts, the options in order, the score (unclamped), the feedback, and the
      goal flag. */
  lemma RenderRoundTrip(t: Reply)
    requires WellFormed(t)
    ensures ExtractTranslation(Render(t)) == Expected(t)
  {
    var h := RestHead(t.goalCompleted, t.assessment);
    var rest := h + ContentPart(t) + OptionsPart(t.options);
    GoalFound(t);
    EvaluateRendered(t);
    HeadLeads(t.goalCompleted, t.assessment);
    TypeFound(h, t);
    ContentFound(h, t);
    OptionsFound(h, t);
  }

  // ----------------------------------------------------------------- examples

  lemma NoColonNoSeparator(s: string)
    requires NoColon(s)
    ensures !Occurs(s, PartSeparator)
  {
    forall i: nat | StartsAt(s, PartSeparator, i)
      ensures false
    {
      SeparatorStartsWithColon(s, i);
    }
  }

  lemma SeparatorStartsWithColon(s: string, i: nat)
    requires StartsAt(s, PartSeparator, i)
    ensures i < |s| && s[i] == ':'
  {
    assert s[i] == s[i..i + 3][0];
  }

  const QuestionReply := Reply(Question, "¿Qué quieres comer?", "What do you want to eat?", None, [], false)
  const ScoredReply := Reply(Statement, "Hola", "Hello", Some(Assessment(4, "Good job")), [], false)
  const FinalReply := Reply(Question, "¿Café?", "Coffee?", Some(Assessment(9, "")), ["Sí", "No"], true)

  /** A reply whose texts are plain and colon-free is well formed. */
  lemma FieldsWellFormed(t: Reply)
    requires Plain(t.original) && NoColon(t.original) && Plain(t.translation) && NoColon(t.translation)
    requires t.assessment.Some? ==> Plain(t.assessment.value.feedback)
    requires forall k :: 0 <= k < |t.options| ==> Plain(t.options[k]) && t.options[k] != []
    ensures WellFormed(t)
  {
    NoColonNoSeparator(t.translation);
  }

  lemma QuestionReplyWellFormed()
    ensures WellFormed(QuestionReply)
  {
    PlainNoColon("¿Qué quieres comer?");
    PlainNoColon("What do you want to eat?");
    FieldsWellFormed(QuestionReply);
  }

  lemma ScoredReplyWellFormed()
    ensures WellFormed(ScoredReply)
  {
    PlainNoColon("Hola");
    PlainNoColon("Hello");
    PlainNoColon("Good job");
    FieldsWellFormed(ScoredReply);
  }

  lemma FinalReplyWellFormed()
    ensures WellFormed(FinalReply)
  {
    PlainNoColon("¿Café?");
    PlainNoColon("Coffee?");
    PlainNoColon("Sí");
    PlainNoColon("No");
    FieldsWellFormed(FinalReply);
  }

  /** A text of letters, punctuation other than `:` and inner single spaces is plain
      and has no `:`. */
  lemma PlainNoColon(s: string)
    requires |s| > 0 && s[0] != ' ' && s[|s| - 1] != ' '
    requires forall i :: 0 <= i < |s| ==> PlainChar(s[i])
    ensures Plain(s) && NoColon(s)
  {
  }

  /** Characters of the example texts: no whitespace but the space, no `[`, no `:`. */
  predicate PlainChar(c: char) {
    c == ' ' || ('a' <= c <= 'z') || ('A' <= c <= 'Z') || c == '?' || c == '¿' || c == 'é' || c == 'í'
  }

  /** A question with no evaluation block: type, both texts, no score. */
  lemma QuestionWithoutEvaluation(text: string)
    requires text == QuestionMarker + "¿Qué quieres comer?" + PartSeparator + "What do you want to eat?"
    ensures ExtractTranslation(text)
      == ParsedTurn(Question, "¿Qué quieres comer?", "What do you want to eat?", [], 0, "", false, false)
  {
    assert Render(QuestionReply) == text;
    QuestionReplyWellFormed();
    RenderRoundTrip(QuestionReply);
  }

  /** An evaluation block `SCORE: 4` with the feedback `Good job`. */
  lemma ScoredStatement(text: string)
    requires text == EvaluationMarker + "SCORE: 4 Good job\n" + StatementMarker + "Hola" + PartSeparator + "Hello"
    ensures ExtractTranslation(text) == ParsedTurn(Statement, "Hola", "Hello", [], 4, "Good job", true, false)
  {
    ScoredRendered();
    ScoredReplyWellFormed();
    RenderRoundTrip(ScoredReply);
  }

  lemma ScoredRendered()
    ensures Render(ScoredReply)
      == EvaluationMarker + "SCORE: 4 Good job\n" + StatementMarker + "Hola" + PartSeparator + "Hello"
  {
    assert DecimalString(4) == "4";
    assert ScoreLine(ScoredReply.assessment.value) + "\n" == "SCORE: 4 Good job\n";
  }

  /** The score is not clamped to the 1-5 scale the tutor is asked to use: `SCORE: 9`
      reads as 9. The goal flag and the options come back too. */
  lemma UnclampedScore(text: string)
    requires text == GoalMarker + "\n" + EvaluationMarker + "SCORE: 9\n" + QuestionMarker
        + "¿Café?" + PartSeparator + "Coffee?" + "\n" + OptionsMarker + "\n1. Sí\n2. No"
    ensures ExtractTranslation(text) == ParsedTurn(Question, "¿Café?", "Coffee?", ["Sí", "No"], 9, "", false, true)
  {
    FinalRendered();
    FinalReplyWellFormed();
    RenderRoundTrip(FinalReply);
  }

  lemma FinalRendered()
    ensures Render(FinalReply) == GoalMarker + "\n" + EvaluationMarker + "SCORE: 9\n" + QuestionMarker
        + "¿Café?" + PartSeparator + "Coffee?" + "\n" + OptionsMarker + "\n1. Sí\n2. No"
  {
    assert DecimalString(9) == "9";
    assert EvaluationPart(FinalReply.assessment) == EvaluationMarker + "SCORE: 9\n";
    assert OptionsPart(FinalReply.options) == "\n" + OptionsMarker + "\n1. Sí\n2. No" by {
      assert DecimalString(1) == "1";
      assert DecimalString(2) == "2";
      assert Items(["No"], 2) == "\n2. No";
      assert Items(["Sí", "No"], 1) == "\n1. Sí\n2. No";
    }
  }

  /** The goal marker is not cut out: on its own in front of plain text it reaches
      the original text and sets the goal flag. */
  lemma GoalMarkerSurvives(text: string)
    requires text == GoalMarker + " Hola"
    ensures ExtractTranslation(text) == ParsedTurn(Statement, text, "", [], 0, "", false, true)
  {
    var tail: string := " Hola";
    MarkerLeads(GoalMarker);
    assert NoBracket(tail);
    NoBracketLeads(tail);
    LeadsConcat(GoalMarker, tail, {'G'}, {});
    NotOccursByLead(text, EvaluationMarker, {'G'});
    NotOccursByLead(text, QuestionMarker, {'G'});
    NotOccursByLead(text, StatementMarker, {'G'});
    NotOccursByLead(text, OptionsMarker, {'G'});
    assert StartsAt(text, GoalMarker, 0);
    assert text[0] == '[' && text[|text| - 1] == 'a';
    TrimUnpadded(text);
    NoMarkersAtAll(text);
  }
}
