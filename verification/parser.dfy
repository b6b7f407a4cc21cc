/** The lenient tutor-reply parser `extractTranslation`: a fixed sequence of
    literal-marker searches over the raw reply text, giving the message type, the
    target-language text and its translation, multiple-choice options, a score,
    evaluation feedback and the goal-completion flag. Total: every string parses. */
module Parser {
  import opened Options
  import opened Text
  import opened Patterns

  const GoalMarker := "[GOAL_COMPLETED]"
  const EvaluationMarker := "[EVALUATION]"
  const QuestionMarker := "[question]"
  const StatementMarker := "[statement]"
  const OptionsMarker := "[OPTIONS]"
  const PartSeparator := ":::"

  /** The lookahead that ends the evaluation block, `$` aside:
      `\n[question]`, `\n[statement]` or `\n[OPTIONS]`. */
  const EvaluationStop := AnyOf(["\n" + QuestionMarker, "\n" + StatementMarker, "\n" + OptionsMarker])
  /** `\[(statement|question)\]` */
  const TypeMarker := AnyOf([StatementMarker, QuestionMarker])
  /** The lookahead that ends the content block, `$` aside: `\n[OPTIONS]`. */
  const ContentStop := Lit("\n" + OptionsMarker)

  datatype MessageType = Statement | Question

  /** The record `extractTranslation` returns. */
  datatype ParsedTurn = ParsedTurn(
    messageType: MessageType,
    original: string,
    translation: string,
    options: seq<string>,
    score: nat,
    evaluation: string,
    hasEvaluation: bool,
    isGoalCompleted: bool)

  // ------------------------------------------------ declarative block shapes

  predicate IsEvaluationStop(s: string, k: nat) {
    StartsAt(s, "\n" + QuestionMarker, k) || StartsAt(s, "\n" + StatementMarker, k)
    || StartsAt(s, "\n" + OptionsMarker, k)
  }

  /** The evaluation block the regular expression matches spans `s[p..j]`: it starts
      at the first `[EVALUATION]`, and its lazy capture `s[p + 12..j]` stops at the
      first stop marker after it, or at the end of the input. */
  ghost predicate EvaluationBlockAt(s: string, p: nat, j: nat) {
    && FirstOccurrence(s, EvaluationMarker, p)
    && p + |EvaluationMarker| <= j <= |s|
    && (j == |s| || IsEvaluationStop(s, j))
    && forall k :: p + |EvaluationMarker| <= k < j ==> !IsEvaluationStop(s, k)
  }

  /** The leftmost match of `SCORE:\s*\d+` (case-insensitive) in `s` starts at `q`
      and, as greedy runs do, takes `a` whitespace characters and the longest digit
      run `b`. */
  ghost predicate FirstScoreAt(s: string, q: nat, a: nat, b: nat) {
    && ScoreSplit(s, q, a, b)
    && (forall b': nat :: ScoreSplit(s, q, a, b') ==> b' <= b)
    && (forall q': nat, a': nat, b': nat :: q' < q ==> !ScoreSplit(s, q', a', b'))
  }

  predicate IsTypeMarker(s: string, k: nat) {
    StartsAt(s, StatementMarker, k) || StartsAt(s, QuestionMarker, k)
  }

  /** The content block the regular expression matches: the first `[statement]` or
      `[question]` starts at `c`, its capture starts at `body` and stops at the first
      `\n[OPTIONS]` after it, or at the end of the input, `j`. */
  ghost predicate ContentBlockAt(s: string, c: nat, body: nat, j: nat) {
    && IsTypeMarker(s, c)
    && (forall k :: 0 <= k < c ==> !IsTypeMarker(s, k))
    && body == c + (if StartsAt(s, StatementMarker, c) then |StatementMarker| else |QuestionMarker|)
    && body <= j <= |s|
    && (j == |s| || StartsAt(s, "\n" + OptionsMarker, j))
    && forall k :: body <= k < j ==> !StartsAt(s, "\n" + OptionsMarker, k)
  }

  // ------------------------------------------------ pattern/marker bridges

  lemma EvaluationStopMatch(s: string, k: nat)
    requires k <= |s|
    ensures MatchesAt(EvaluationStop, s, k) <==> IsEvaluationStop(s, k)
  {
    var alts := ["\n" + QuestionMarker, "\n" + StatementMarker, "\n" + OptionsMarker];
    assert EvaluationStop.alts == alts;
    if IsEvaluationStop(s, k) {
      assert StartsAt(s, alts[0], k) || StartsAt(s, alts[1], k) || StartsAt(s, alts[2], k);
    }
  }

  lemma TypeMarkerMatch(s: string, k: nat)
    requires k <= |s|
    ensures MatchesAt(TypeMarker, s, k) <==> IsTypeMarker(s, k)
    ensures MatchesAt(TypeMarker, s, k) ==>
      MatchEnd(TypeMarker, s, k).value
        == k + (if StartsAt(s, StatementMarker, k) then |StatementMarker| else |QuestionMarker|)
  {
    var alts := [StatementMarker, QuestionMarker];
    assert TypeMarker.alts == alts;
    if IsTypeMarker(s, k) {
      assert StartsAt(s, alts[0], k) || StartsAt(s, alts[1], k);
    }
  }

  // ------------------------------------------------------- the evaluation

  /** The score and the feedback text read from an evaluation. */
  datatype Grade = Grade(score: nat, feedback: string)

  /** Score and feedback from the trimmed evaluation text: the first `SCORE:\s*\d+`
      gives the score through `parseInt`, and the text without it, trimmed, is the
      feedback; with no score label the whole text is the feedback and the score
      stays 0. */
  function ScoreAndFeedback(evalText: string): (r: Grade)
    ensures Unpadded(evalText) ==> Unpadded(r.feedback)
  {
    match Search(ScoreLabel, evalText, 0)
    case None => Grade(0, evalText)
    case Some(q) => Grade(DecimalValue(ScoreDigits(evalText, q)), Trim(RemoveFirst(ScoreLabel, evalText)))
  }

  /** The digits of the score label matched at `q`. */
  function ScoreDigits(s: string, q: nat): (ds: string)
    requires MatchesAt(ScoreLabel, s, q)
    ensures AllDigits(ds)
  {
    ScoreLabelIsGreedy(s, q);
    s[q + 6 + RunLength(s, q + 6, Whitespace)..MatchEnd(ScoreLabel, s, q).value]
  }

  /** With a score label present, the score is the decimal value of the digits of
      its leftmost, greedy match, and the feedback is the rest of the text, trimmed. */
  lemma ScoreAndFeedbackAt(evalText: string, q: nat, a: nat, b: nat)
    requires FirstScoreAt(evalText, q, a, b)
    ensures AllDigits(evalText[q + 6 + a..q + 6 + a + b])
    ensures ScoreAndFeedback(evalText).score == DecimalValue(evalText[q + 6 + a..q + 6 + a + b])
    ensures ScoreAndFeedback(evalText).feedback == Trim(evalText[..q] + evalText[q + 6 + a + b..])
  {
    ScoreSearchFinds(evalText, q, a, b);
    ScoreValueFrom(evalText, q, a, b);
    FeedbackFrom(evalText, q, q + 6 + a + b);
  }

  lemma ScoreAndFeedbackSome(s: string, q: nat)
    requires Search(ScoreLabel, s, 0) == Some(q)
    ensures ScoreAndFeedback(s) == Grade(DecimalValue(ScoreDigits(s, q)), Trim(RemoveFirst(ScoreLabel, s)))
  {
  }

  lemma ScoreValueFrom(s: string, q: nat, a: nat, b: nat)
    requires Search(ScoreLabel, s, 0) == Some(q)
    requires a == RunLength(s, q + 6, Whitespace)
    requires MatchEnd(ScoreLabel, s, q).value == q + 6 + a + b
    ensures q + 6 + a + b <= |s|
    ensures AllDigits(s[q + 6 + a..q + 6 + a + b])
    ensures ScoreAndFeedback(s).score == DecimalValue(s[q + 6 + a..q + 6 + a + b])
  {
    ScoreDigitsAt(s, q, a, q + 6 + a + b);
    ScoreValueOf(s, q, s[q + 6 + a..q + 6 + a + b]);
  }

  lemma ScoreValueOf(s: string, q: nat, ds: string)
    requires Search(ScoreLabel, s, 0) == Some(q)
    requires ScoreDigits(s, q) == ds
    ensures AllDigits(ds) && ScoreAndFeedback(s).score == DecimalValue(ds)
  {
    ScoreAndFeedbackSome(s, q);
  }

  lemma FeedbackFrom(s: string, q: nat, e: nat)
    requires Search(ScoreLabel, s, 0) == Some(q)
    requires MatchEnd(ScoreLabel, s, q).value == e
    ensures e <= |s| && ScoreAndFeedback(s).feedback == Trim(s[..q] + s[e..])
  {
    assert FirstMatchAt(ScoreLabel, s, q);
    assert RemoveFirst(ScoreLabel, s) == s[..q] + s[e..];
  }

  /** Without a score label the score stays 0 and the whole text is the feedback. */
  lemma ScoreAndFeedbackNone(evalText: string)
    requires forall q: nat, a: nat, b: nat :: !ScoreSplit(evalText, q, a, b)
    ensures ScoreAndFeedback(evalText) == Grade(0, evalText)
  {
    if Search(ScoreLabel, evalText, 0).Some? {
      ScoreLabelIsGreedy(evalText, Search(ScoreLabel, evalText, 0).value);
    }
  }

  lemma ScoreSearchFinds(s: string, q: nat, a: nat, b: nat)
    requires FirstScoreAt(s, q, a, b)
    ensures Search(ScoreLabel, s, 0) == Some(q)
    ensures a == RunLength(s, q + 6, Whitespace)
    ensures MatchEnd(ScoreLabel, s, q).value == q + 6 + a + b
  {
    LongestSplitIsMatch(s, q, a, b);
    NoScoreMatchBefore(s, q);
    SearchFindsLeftmost(ScoreLabel, s, q);
  }

  /** The split with the longest digit run is the engine's match at `q`. */
  lemma LongestSplitIsMatch(s: string, q: nat, a: nat, b: nat)
    requires ScoreSplit(s, q, a, b)
    requires forall b': nat :: ScoreSplit(s, q, a, b') ==> b' <= b
    ensures MatchesAt(ScoreLabel, s, q)
    ensures a == RunLength(s, q + 6, Whitespace)
    ensures MatchEnd(ScoreLabel, s, q).value == q + 6 + a + b
  {
    ScoreLabelIsGreedy(s, q);
    var b0 := RunLength(s, q + 6 + a, Digit);
    assert ScoreSplit(s, q, a, b0);
  }

  lemma NoScoreMatchBefore(s: string, q: nat)
    requires q <= |s|
    requires forall q': nat, a': nat, b': nat :: q' < q ==> !ScoreSplit(s, q', a', b')
    ensures forall j :: 0 <= j < q ==> !MatchesAt(ScoreLabel, s, j)
  {
    forall j | 0 <= j < q
      ensures !MatchesAt(ScoreLabel, s, j)
    {
      ScoreLabelIsGreedy(s, j);
    }
  }

  lemma ScoreDigitsAt(s: string, q: nat, a: nat, e: nat)
    requires MatchesAt(ScoreLabel, s, q)
    requires a == RunLength(s, q + 6, Whitespace)
    requires MatchEnd(ScoreLabel, s, q).value == e
    ensures q + 6 + a <= e <= |s|
    ensures ScoreDigits(s, q) == s[q + 6 + a..e]
  {
    ScoreLabelIsGreedy(s, q);
  }

  /** When the engine finds no score label, no declarative split exists either. */
  lemma NoScoreSplit(s: string)
    requires Search(ScoreLabel, s, 0).None?
    ensures forall q: nat, a: nat, b: nat :: !ScoreSplit(s, q, a, b)
  {
    forall q: nat, a: nat, b: nat | ScoreSplit(s, q, a, b)
      ensures false
    {
      ScoreLabelIsGreedy(s, q);
    }
  }

  /** The engine's leftmost match is the declarative first score, and no other
      `(q, a, b)` is. */
  lemma ScoreMatchIsFirstScore(s: string, q: nat, a: nat, b: nat)
    requires Search(ScoreLabel, s, 0) == Some(q)
    requires a == RunLength(s, q + 6, Whitespace)
    requires MatchEnd(ScoreLabel, s, q).value == q + 6 + a + b
    ensures FirstScoreAt(s, q, a, b)
    ensures forall q': nat, a': nat, b': nat :: FirstScoreAt(s, q', a', b') ==> q' == q && a' == a && b' == b
  {
    MatchIsLongestSplit(s, q, a, b);
    NoSplitBefore(s, q);
    forall q': nat, a': nat, b': nat | FirstScoreAt(s, q', a', b')
      ensures q' == q && a' == a && b' == b
    {
      FirstScoreIsUnique(s, q, a, b, q', a', b');
    }
  }

  lemma MatchIsLongestSplit(s: string, q: nat, a: nat, b: nat)
    requires q <= |s| && MatchesAt(ScoreLabel, s, q)
    requires a == RunLength(s, q + 6, Whitespace)
    requires MatchEnd(ScoreLabel, s, q).value == q + 6 + a + b
    ensures ScoreSplit(s, q, a, b)
    ensures forall b': nat :: ScoreSplit(s, q, a, b') ==> b' <= b
  {
    ScoreLabelIsGreedy(s, q);
  }

  lemma NoSplitBefore(s: string, q: nat)
    requires Search(ScoreLabel, s, 0) == Some(q)
    ensures forall q': nat, a': nat, b': nat :: q' < q ==> !ScoreSplit(s, q', a', b')
  {
    forall q': nat, a': nat, b': nat | q' < q
      ensures !ScoreSplit(s, q', a', b')
    {
      ScoreLabelIsGreedy(s, q');
    }
  }

  lemma FirstScoreIsUnique(s: string, q: nat, a: nat, b: nat, q': nat, a': nat, b': nat)
    requires FirstScoreAt(s, q, a, b) && FirstScoreAt(s, q', a', b')
    ensures q' == q && a' == a && b' == b
  {
    ScoreLabelIsGreedy(s, q);
  }

  /** What the evaluation step leaves: the score, the feedback, and the working text
      the later steps read. */
  datatype Evaluated = Evaluated(score: nat, evaluation: string, rest: string)

  /** Steps of helpers.js lines 29-41: find the evaluation block, read score and feedback from
      it, and cut the block out of the text. A block whose capture is empty is falsy
      in JavaScript and leaves everything, the text included, as it was. */
  function Evaluate(text: string): (r: Evaluated)
    ensures !Occurs(text, EvaluationMarker) ==> r == Evaluated(0, "", text)
    ensures Unpadded(r.evaluation)
    ensures forall p: nat, j: nat :: EvaluationBlockAt(text, p, j) && j == p + |EvaluationMarker| ==>
      r == Evaluated(0, "", text)
    ensures forall p: nat, j: nat :: EvaluationBlockAt(text, p, j) && j > p + |EvaluationMarker| ==>
      && r.rest == Trim(text[..p] + text[j..])
      && Grade(r.score, r.evaluation) == ScoreAndFeedback(Trim(text[p + |EvaluationMarker|..j]))
  {
    match Search(Lit(EvaluationMarker), text, 0)
    case None =>
      NoMarker(text, EvaluationMarker);
      Evaluated(0, "", text)
    case Some(p) =>
      var j := EvaluationEnd(text, p);
      CutEvaluation(text, p, j)
  }

  /** Where the lazy capture of the evaluation block starting at `p` stops. */
  function EvaluationEnd(text: string, p: nat): (j: nat)
    requires Search(Lit(EvaluationMarker), text, 0) == Some(p)
    ensures EvaluationBlockAt(text, p, j)
    ensures forall p': nat, j': nat :: EvaluationBlockAt(text, p', j') ==> p' == p && j' == j
  {
    LiteralMatch(EvaluationMarker, text, p);
    var j := ScanTo(EvaluationStop, text, p + |EvaluationMarker|);
    EvaluationBlockFound(text, p, j);
    j
  }

  /** The evaluation step once the block `text[p..j]` is known. */
  function CutEvaluation(text: string, p: nat, j: nat): (r: Evaluated)
    requires EvaluationBlockAt(text, p, j)
    ensures Unpadded(r.evaluation)
    ensures j == p + |EvaluationMarker| ==> r == Evaluated(0, "", text)
    ensures j > p + |EvaluationMarker| ==>
      && r.rest == Trim(text[..p] + text[j..])
      && Grade(r.score, r.evaluation) == ScoreAndFeedback(Trim(text[p + |EvaluationMarker|..j]))
  {
    var body := p + |EvaluationMarker|;
    if j == body then Evaluated(0, "", text)
    else
      var sf := ScoreAndFeedback(Trim(text[body..j]));
      RemoveFirstRegion(text, EvaluationMarker, p, j);
      Evaluated(sf.score, sf.feedback, Trim(RemoveFirst(Lit(text[p..j]), text)))
  }

  lemma NoMarker(s: string, marker: string)
    requires Search(Lit(marker), s, 0).None?
    ensures !Occurs(s, marker)
  {
    forall i: nat | StartsAt(s, marker, i)
      ensures false
    {
      LiteralMatch(marker, s, i);
    }
  }

  lemma FirstMarker(s: string, marker: string, p: nat)
    requires Search(Lit(marker), s, 0) == Some(p)
    ensures FirstOccurrence(s, marker, p)
    ensures forall p' :: FirstOccurrence(s, marker, p') ==> p' == p
  {
    LiteralMatch(marker, s, p);
    forall i | 0 <= i < p
      ensures !StartsAt(s, marker, i)
    {
      LiteralMatch(marker, s, i);
    }
  }

  /** The block `Evaluate` works on is the declarative one, and the only one. */
  lemma EvaluationBlockFound(s: string, p: nat, j: nat)
    requires Search(Lit(EvaluationMarker), s, 0) == Some(p)
    requires p + |EvaluationMarker| <= |s|
    requires j == ScanTo(EvaluationStop, s, p + |EvaluationMarker|)
    ensures EvaluationBlockAt(s, p, j)
    ensures forall p': nat, j': nat :: EvaluationBlockAt(s, p', j') ==> p' == p && j' == j
  {
    EvaluationBlockScanned(s, p, j);
    forall p': nat, j': nat | EvaluationBlockAt(s, p', j')
      ensures p' == p && j' == j
    {
      EvaluationBlockIsUnique(s, p, j, p', j');
    }
  }

  lemma EvaluationBlockScanned(s: string, p: nat, j: nat)
    requires Search(Lit(EvaluationMarker), s, 0) == Some(p)
    requires p + |EvaluationMarker| <= |s|
    requires j == ScanTo(EvaluationStop, s, p + |EvaluationMarker|)
    ensures EvaluationBlockAt(s, p, j)
  {
    FirstMarker(s, EvaluationMarker, p);
    var body := p + |EvaluationMarker|;
    if j < |s| {
      EvaluationStopMatch(s, j);
    }
    forall k | body <= k < j
      ensures !IsEvaluationStop(s, k)
    {
      EvaluationStopMatch(s, k);
    }
  }

  lemma EvaluationBlockIsUnique(s: string, p: nat, j: nat, p': nat, j': nat)
    requires EvaluationBlockAt(s, p, j) && EvaluationBlockAt(s, p', j')
    ensures p == p' && j == j'
  {
    FirstOccurrenceIsUnique(s, EvaluationMarker, p, p');
  }

  // ---------------------------------------------------------- the content

  /** helpers.js lines 48-56: the content block after the first type marker, cut at the first
      `:::` into original text and translation; text after a second `:::` is dropped.
      With no marker, or an empty block, the whole text trimmed is the original. */
  function Content(text: string): (r: (string, string))
    ensures Unpadded(r.0) && Unpadded(r.1)
    ensures (forall k :: 0 <= k <= |text| ==> !IsTypeMarker(text, k)) ==> r == (Trim(text), "")
    ensures forall c: nat, body: nat, j: nat :: ContentBlockAt(text, c, body, j) && j == body ==>
      r == (Trim(text), "")
    ensures forall c: nat, body: nat, j: nat :: ContentBlockAt(text, c, body, j) && j > body ==>
      r == Parts(text[body..j])
  {
    match Search(TypeMarker, text, 0)
    case None =>
      NoTypeMarker(text);
      (Trim(text), "")
    case Some(c) =>
      TypeMarkerMatch(text, c);
      var body := MatchEnd(TypeMarker, text, c).value;
      var j := ScanTo(ContentStop, text, body);
      ContentBlockFound(text, c, body, j);
      if j == body then (Trim(text), "") else Parts(text[body..j])
  }

  /** The capture `split(':::')`: the first piece, trimmed, and the second, trimmed,
      or empty when there is no separator. */
  function Parts(capture: string): (r: (string, string))
    ensures Unpadded(r.0) && Unpadded(r.1)
    ensures !Occurs(capture, PartSeparator) ==> r == (Trim(capture), "")
    ensures forall a: nat :: FirstOccurrence(capture, PartSeparator, a) ==>
      r.0 == Trim(capture[..a])
    ensures forall a: nat ::
      (FirstOccurrence(capture, PartSeparator, a) && LastOccurrence(capture, PartSeparator, a))
      ==> r.1 == Trim(capture[a + 3..])
    ensures forall a: nat, b: nat ::
      (FirstOccurrence(capture, PartSeparator, a) && NextOccurrence(capture, PartSeparator, a, b))
      ==> r.1 == Trim(capture[a + 3..b])
  {
    var parts := Split(Lit(PartSeparator), capture);
    SplitLiteralParts(PartSeparator, capture);
    (Trim(parts[0]), if |parts| > 1 then Trim(parts[1]) else "")
  }

  /** The first two pieces of a split on a literal, described by occurrences. */
  lemma SplitLiteralParts(sep: string, s: string)
    requires |sep| > 0
    ensures !Occurs(s, sep) ==> Split(Lit(sep), s) == [s]
    ensures forall a: nat :: FirstOccurrence(s, sep, a) ==>
      |Split(Lit(sep), s)| > 1 && Split(Lit(sep), s)[0] == s[..a]
    ensures forall a: nat :: FirstOccurrence(s, sep, a) && LastOccurrence(s, sep, a) ==>
      Split(Lit(sep), s)[1] == s[a + |sep|..]
    ensures forall a: nat, b: nat :: FirstOccurrence(s, sep, a) && NextOccurrence(s, sep, a, b) ==>
      Split(Lit(sep), s)[1] == s[a + |sep|..b]
  {
    match Search(Lit(sep), s, 0)
    case None =>
      NoMarker(s, sep);
    case Some(q) =>
      FirstMarker(s, sep, q);
      LiteralMatch(sep, s, q);
      var e := q + |sep|;
      SplitStep(Lit(sep), s, q, e);
      SecondPiece(sep, s, q, Split(Lit(sep), s));
  }

  /** The piece after the first separator at `q` runs to the next separator, or to
      the end when there is none. */
  lemma SecondPiece(sep: string, s: string, q: nat, pieces: seq<string>)
    requires |sep| > 0 && q + |sep| <= |s|
    requires pieces == [s[..q]] + Split(Lit(sep), s[q + |sep|..])
    ensures LastOccurrence(s, sep, q) ==> pieces[1] == s[q + |sep|..]
    ensures forall b: nat :: NextOccurrence(s, sep, q, b) ==> pieces[1] == s[q + |sep|..b]
  {
    ConsSecond(s[..q], Split(Lit(sep), s[q + |sep|..]), pieces);
    FirstPieceOfRest(sep, s, q + |sep|);
  }

  lemma ConsSecond(x: string, ys: seq<string>, xs: seq<string>)
    requires |ys| >= 1 && xs == [x] + ys
    ensures xs[1] == ys[0]
  {
  }

  /** The first piece of the split of `s[e..]`, described by the occurrences in `s`. */
  lemma FirstPieceOfRest(sep: string, s: string, e: nat)
    requires |sep| > 0 && e <= |s|
    ensures NoOccurrenceFrom(s, sep, e) ==> Split(Lit(sep), s[e..])[0] == s[e..]
    ensures forall b: nat :: FirstOccurrenceFrom(s, sep, e, b) ==> Split(Lit(sep), s[e..])[0] == s[e..b]
  {
    var rest := s[e..];
    SplitFirstPiece(Lit(sep), rest);
    if NoOccurrenceFrom(s, sep, e) {
      forall j | 0 <= j <= |rest|
        ensures !MatchesAt(Lit(sep), rest, j)
      {
        ShiftedLiteral(sep, s, e, j);
      }
    }
    forall b: nat | FirstOccurrenceFrom(s, sep, e, b)
      ensures Split(Lit(sep), rest)[0] == s[e..b]
    {
      FirstPieceAt(sep, s, e, b);
    }
  }

  lemma FirstPieceAt(sep: string, s: string, e: nat, b: nat)
    requires |sep| > 0 && e <= |s|
    requires FirstOccurrenceFrom(s, sep, e, b)
    ensures Split(Lit(sep), s[e..])[0] == s[e..b]
  {
    var rest := s[e..];
    var f := Split(Lit(sep), rest)[0];
    SplitFirstPiece(Lit(sep), rest);
    ShiftedLiteral(sep, s, e, b - e);
    assert |Split(Lit(sep), rest)| > 1;
    ShiftedLiteral(sep, s, e, |f|);
    assert |f| == b - e;
  }

  /** A literal matches the suffix `s[e..]` at `k` exactly when it starts in `s` at `e + k`. */
  lemma ShiftedLiteral(sep: string, s: string, e: nat, k: nat)
    requires e + k <= |s|
    ensures MatchesAt(Lit(sep), s[e..], k) <==> StartsAt(s, sep, e + k)
  {
    LiteralMatch(sep, s[e..], k);
    if e + k + |sep| <= |s| {
      assert s[e..][k..k + |sep|] == s[e + k..e + k + |sep|];
    }
  }

  lemma NoTypeMarker(s: string)
    requires Search(TypeMarker, s, 0).None?
    ensures forall k :: 0 <= k <= |s| ==> !IsTypeMarker(s, k)
  {
    forall k | 0 <= k <= |s|
      ensures !IsTypeMarker(s, k)
    {
      TypeMarkerMatch(s, k);
    }
  }

  /** The block `Content` works on is the declarative one, and the only one. */
  lemma ContentBlockFound(s: string, c: nat, body: nat, j: nat)
    requires Search(TypeMarker, s, 0) == Some(c)
    requires body == MatchEnd(TypeMarker, s, c).value
    requires j == ScanTo(ContentStop, s, body)
    ensures ContentBlockAt(s, c, body, j)
    ensures forall c': nat, body': nat, j': nat :: ContentBlockAt(s, c', body', j') ==>
      c' == c && body' == body && j' == j
  {
    TypeMarkerMatch(s, c);
    forall k | 0 <= k < c
      ensures !IsTypeMarker(s, k)
    {
      TypeMarkerMatch(s, k);
    }
    if j < |s| {
      LiteralMatch("\n" + OptionsMarker, s, j);
    }
    forall k | body <= k < j
      ensures !StartsAt(s, "\n" + OptionsMarker, k)
    {
      LiteralMatch("\n" + OptionsMarker, s, k);
    }
    forall c': nat, body': nat, j': nat | ContentBlockAt(s, c', body', j')
      ensures c' == c && body' == body && j' == j
    {
      if j' < j {
        LiteralMatch("\n" + OptionsMarker, s, j');
      }
    }
  }

  // ---------------------------------------------------------- the options

  /** `filter(Boolean)` on strings: the non-empty ones, in order. */
  function DropEmpty(xs: seq<string>): (ys: seq<string>)
    ensures |ys| <= |xs|
    ensures forall k :: 0 <= k < |ys| ==> ys[k] != []
    ensures forall y :: y in ys <==> y in xs && y != []
    ensures (forall k :: 0 <= k < |xs| ==> xs[k] != []) ==> ys == xs
    decreases |xs|
  {
    if xs == [] then []
    else if xs[0] == [] then DropEmpty(xs[1..])
    else [xs[0]] + DropEmpty(xs[1..])
  }

  /** `filter(Boolean)` distributes over concatenation: it works piece by piece. */
  lemma {:induction false} DropEmptyConcat(a: seq<string>, b: seq<string>)
    ensures DropEmpty(a + b) == DropEmpty(a) + DropEmpty(b)
    decreases |a|
  {
    if a == [] {
      assert a + b == b;
    } else {
      assert (a + b)[0] == a[0];
      assert (a + b)[1..] == a[1..] + b;
      DropEmptyConcat(a[1..], b);
    }
  }

  /** On one piece, `filter(Boolean)` keeps it exactly when it is non-empty. With
      `DropEmptyConcat` this fixes the result on every list: order and repeats kept. */
  lemma DropEmptySingle(x: string)
    ensures DropEmpty([x]) == if x == [] then [] else [x]
  {
  }

  /** `map(option => option.trim())`. */
  function TrimEach(xs: seq<string>): (ys: seq<string>)
    ensures |ys| == |xs|
    ensures forall k :: 0 <= k < |xs| ==> ys[k] == Trim(xs[k])
  {
    seq(|xs|, k requires 0 <= k < |xs| => Trim(xs[k]))
  }

  /** helpers.js lines 58-63: the text after the first `[OPTIONS]`, split at each numbered-item
      separator `\n<digits>.<space>`; exactly-empty pieces are dropped and the rest
      trimmed. No marker, or nothing after it, gives no options. */
  function OptionList(text: string): (r: seq<string>)
    ensures !Occurs(text, OptionsMarker) ==> r == []
    ensures forall k :: 0 <= k < |r| ==> Unpadded(r[k])
    ensures forall o: nat :: FirstOccurrence(text, OptionsMarker, o) ==>
      r == TrimEach(DropEmpty(Split(ItemNumber, text[o + |OptionsMarker|..])))
  {
    match Search(Lit(OptionsMarker), text, 0)
    case None =>
      NoMarker(text, OptionsMarker);
      []
    case Some(o) =>
      FirstMarker(text, OptionsMarker, o);
      LiteralMatch(OptionsMarker, text, o);
      var block := text[o + |OptionsMarker|..];
      if block == [] then
        assert Split(ItemNumber, block) == [[]];
        []
      else TrimEach(DropEmpty(Split(ItemNumber, block)))
  }

  // ---------------------------------------------------------- the whole parse

  /** `extractTranslation(text)`. */
  function ExtractTranslation(text: string): (r: ParsedTurn)
    ensures r.isGoalCompleted <==> Occurs(text, GoalMarker)
    ensures r.hasEvaluation <==> r.evaluation != []
    ensures r.messageType == Question <==> Occurs(Evaluate(text).rest, QuestionMarker)
    ensures !Occurs(text, EvaluationMarker) ==> r.score == 0 && r.evaluation == [] && !r.hasEvaluation
    ensures Unpadded(r.original) && Unpadded(r.translation) && Unpadded(r.evaluation)
    ensures forall k :: 0 <= k < |r.options| ==> Unpadded(r.options[k])
    ensures r.score == Evaluate(text).score && r.evaluation == Evaluate(text).evaluation
    ensures (r.original, r.translation) == Content(Evaluate(text).rest)
    ensures r.options == OptionList(Evaluate(text).rest)
  {
    var goal := Contains(text, GoalMarker);
    var ev := Evaluate(text);
    var kind := if Contains(ev.rest, QuestionMarker) then Question else Statement;
    var content := Content(ev.rest);
    ParsedTurn(kind, content.0, content.1, OptionList(ev.rest), ev.score, ev.evaluation,
      ev.evaluation != [], goal)
  }

  /** A text with none of the evaluation, type and options markers is a statement:
      the whole text, trimmed, with no translation, no options, score 0 and no
      evaluation; the goal flag still follows the goal marker, which stays in the text. */
  lemma NoMarkersAtAll(text: string)
    requires !Occurs(text, EvaluationMarker)
    requires !Occurs(text, QuestionMarker) && !Occurs(text, StatementMarker)
    requires !Occurs(text, OptionsMarker)
    ensures ExtractTranslation(text)
      == ParsedTurn(Statement, Trim(text), "", [], 0, "", false, Occurs(text, GoalMarker))
  {
    assert Evaluate(text) == Evaluated(0, "", text);
    NoTypeMarkerAnywhere(text);
    var r := ExtractTranslation(text);
    assert (r.original, r.translation) == (Trim(text), "");
    assert r.options == [];
  }

  lemma NoTypeMarkerAnywhere(text: string)
    requires !Occurs(text, QuestionMarker) && !Occurs(text, StatementMarker)
    ensures forall k :: 0 <= k <= |text| ==> !IsTypeMarker(text, k)
  {
  }
}
