/** Display helpers of the chat screen: cutting long text down to a limit and
    choosing the card gradient from a lesson's difficulty string. */
module Display {
  import opened Text

  // ------------------------------------------------------------ truncation

  /** The limit `truncateText` uses when the caller gives none. */
  const DefaultMaxLength: int := 100

  const Ellipsis: string := "..."

  /**
   * End index of JavaScript's `text.slice(0, maxLength)`: a negative end counts
   * back from the end of the text and stops at 0; a large one stops at the length.
   */
  function SliceEnd(len: nat, end: int): (e: nat)
    ensures e <= len
    ensures 0 <= end <= len ==> e == end
    ensures end > len ==> e == len
    ensures end < 0 ==> e + (-end) == len || (e == 0 && len < -end)
  {
    if end < 0 then (if len + end < 0 then 0 else len + end)
    else if end > len then len
    else end
  }

  /**
   * Keeps `text` when it is empty or no longer than `maxLength`; otherwise keeps
   * the slice up to `maxLength` and appends three dots.
   */
  function TruncateText(text: string, maxLength: int): (r: string)
    ensures |text| == 0 || |text| <= maxLength ==> r == text
    ensures |text| > 0 && |text| > maxLength >= 0 ==>
              |r| == maxLength + 3 && r[..maxLength] == text[..maxLength] && r[maxLength..] == Ellipsis
    ensures |text| > 0 && 0 > maxLength ==>
              r == text[..SliceEnd(|text|, maxLength)] + Ellipsis
  {
    if |text| == 0 || |text| <= maxLength then text
    else text[..SliceEnd(|text|, maxLength)] + Ellipsis
  }

  /** `truncateText(text)` with the limit left out: at most 100 characters are kept. */
  function TruncateTextDefault(text: string): (r: string)
    ensures |text| <= 100 ==> r == text
    ensures |text| > 100 ==> |r| == 103 && r == text[..100] + Ellipsis
  {
    TruncateText(text, DefaultMaxLength)
  }

  /** Whatever the limit, the result is the text itself or a prefix of it followed by three dots. */
  lemma TruncateKeepsPrefix(text: string, maxLength: int)
    ensures var r := TruncateText(text, maxLength);
            r == text || (exists n :: 0 <= n <= |text| && r == text[..n] + Ellipsis)
  {
    var r := TruncateText(text, maxLength);
    if r != text {
      var n := SliceEnd(|text|, maxLength);
      assert r == text[..n] + Ellipsis;
    }
  }

  /** With a non-negative limit a text is never longer than the limit plus three after truncation. */
  lemma TruncateBounded(text: string, maxLength: nat)
    ensures |TruncateText(text, maxLength)| <= if |text| <= maxLength then |text| else maxLength + 3
  {
  }

  /** Truncating twice with the same non-negative limit is truncating once. */
  lemma TruncateIdempotent(text: string, maxLength: nat)
    ensures TruncateText(TruncateText(text, maxLength), maxLength) == TruncateText(text, maxLength)
  {
    var r := TruncateText(text, maxLength);
    if r != text {
      assert r == text[..maxLength] + Ellipsis;
      assert r[..maxLength] == text[..maxLength];
      assert TruncateText(r, maxLength) == r[..maxLength] + Ellipsis;
    }
  }

  /** A negative limit counts from the end, so a second truncation cuts again. */
  lemma NegativeLimitIsNotIdempotent(text: string)
    requires text == "abcd"
    ensures TruncateText(text, -1) == "abc..."
    ensures TruncateText(TruncateText(text, -1), -1) == "abc....."
  {
    assert text[..3] == "abc";
    var once := TruncateText(text, -1);
    assert once == "abc" + Ellipsis == "abc...";
    assert once[..5] == "abc..";
  }

  // ------------------------------------------------------------ difficulty

  /** The three difficulty levels a gradient exists for. */
  datatype Level = Beginner | Intermediate | Advanced

  function LevelName(l: Level): string {
    match l
    case Beginner => "beginner"
    case Intermediate => "intermediate"
    case Advanced => "advanced"
  }

  function GradientClass(l: Level): string {
    match l
    case Beginner => "gradient-beginner"
    case Intermediate => "gradient-intermediate"
    case Advanced => "gradient-advanced"
  }

  /**
   * Reference reading of a difficulty: the level whose name it spells, ignoring
   * ASCII case; anything else reads as a beginner level.
   */
  function LevelOf(difficulty: string): (l: Level)
    ensures l == Intermediate <==> EqualsIgnoringAsciiCase(difficulty, "intermediate")
    ensures l == Advanced <==> EqualsIgnoringAsciiCase(difficulty, "advanced")
  {
    if EqualsIgnoringAsciiCase(difficulty, "intermediate") then Intermediate
    else if EqualsIgnoringAsciiCase(difficulty, "advanced") then Advanced
    else Beginner
  }

  /**
   * Lower-cases the difficulty and switches on the three level names; the
   * default branch gives the beginner gradient.
   */
  function DifficultyGradient(difficulty: string): (r: string)
    ensures r == "gradient-intermediate" <==> EqualsIgnoringAsciiCase(difficulty, "intermediate")
    ensures r == "gradient-advanced" <==> EqualsIgnoringAsciiCase(difficulty, "advanced")
    ensures r == "gradient-beginner" <==>
              !EqualsIgnoringAsciiCase(difficulty, "intermediate") && !EqualsIgnoringAsciiCase(difficulty, "advanced")
  {
    var normalized := ToLowerAscii(difficulty);
    LowerMatchesIgnoringCase(difficulty, "intermediate");
    LowerMatchesIgnoringCase(difficulty, "advanced");
    if normalized == "beginner" then "gradient-beginner"
    else if normalized == "intermediate" then "gradient-intermediate"
    else if normalized == "advanced" then "gradient-advanced"
    else "gradient-beginner"
  }

  /** For an all-lower-case word, lower-casing `s` gives the word exactly when `s` spells it in any case. */
  lemma LowerMatchesIgnoringCase(s: string, word: string)
    requires ToLowerAscii(word) == word
    ensures ToLowerAscii(s) == word <==> EqualsIgnoringAsciiCase(s, word)
  {
    if EqualsIgnoringAsciiCase(s, word) {
      forall i | 0 <= i < |s|
        ensures ToLowerAscii(s)[i] == word[i]
      {
        assert LowerAscii(word[i]) == ToLowerAscii(word)[i];
      }
    }
    if ToLowerAscii(s) == word {
      forall i | 0 <= i < |s|
        ensures LowerAscii(s[i]) == LowerAscii(word[i])
      {
        assert ToLowerAscii(s)[i] == LowerAscii(s[i]);
        assert LowerAscii(LowerAscii(s[i])) == LowerAscii(s[i]);
      }
    }
  }

  /** The gradient is the class of the difficulty's reference level, for every input. */
  lemma GradientFollowsLevel(difficulty: string)
    ensures DifficultyGradient(difficulty) == GradientClass(LevelOf(difficulty))
  {
  }

  /** Each level's own name, in any ASCII case, selects that level's gradient. */
  lemma LevelNameSelectsItsGradient(l: Level, spelled: string)
    requires EqualsIgnoringAsciiCase(spelled, LevelName(l))
    ensures DifficultyGradient(spelled) == GradientClass(l)
  {
    if l == Beginner {
      assert !EqualsIgnoringAsciiCase(spelled, "intermediate") by {
        assert |spelled| == 8;
      }
      assert !EqualsIgnoringAsciiCase(spelled, "advanced") by {
        assert LowerAscii(spelled[0]) == 'b';
      }
    }
  }
}
