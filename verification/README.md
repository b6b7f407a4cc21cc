# Tutor-reply parser, display helpers and lesson store

A Dafny model of the pure core of a browser-based language-tutoring chat app.
The core has three parts:

- **The reply parser `extractTranslation`.** It reads the tutor's
  semi-structured reply and returns a `ParsedTurn`. The reply is found by marker
  searches:
  - `[GOAL_COMPLETED]`.
  - An `[EVALUATION]` block with a case-insensitive `SCORE:` label.
  - A `[statement]` or `[question]` block whose text is split at `:::` into the
    original text and its translation.
  - An `[OPTIONS]` block holding a numbered list.
- **Two display helpers.** `truncateText` cuts a long text down to a limit and
  appends `...`. `getDifficultyGradient` picks a CSS gradient class from a
  lesson's difficulty string.
- **The lesson data.** This is the six-lesson catalog, `getLessonById`, and the
  record of completed lessons kept in browser storage. The record is modelled as
  a pure store. Whether the code runs in a browser, what storage holds and
  whether a write succeeds are all inputs.

Modules:

| module | file | what it holds |
|---|---|---|
| `Options` | `options.dfy` | `Option<T>` |
| `Text` | `text.dfy` | JavaScript's whitespace set, `trim`, decimal numerals, ASCII case |
| `Patterns` | `patterns.dfy` | The four regular-expression shapes the parser uses, with JavaScript's match semantics (leftmost match, greedy runs, lazy scan to a lookahead), `includes`, `replace` and `split` |
| `Parser` | `parser.dfy` | `extractTranslation`, stage by stage, each stage with a declarative description of the block it finds |
| `ParserRoundTrip` | `roundtrip.dfy` | A renderer that writes a reply in the marker layout `extractTranslation` reads, plus the proof that the parser reads every field back |
| `Display` | `display.dfy` | `truncateText`, `getDifficultyGradient` |
| `Lessons` | `lessons.dfy` | The catalog and lookup by id |
| `Completion` | `completion.dfy` | `getCompletedLessons`, `saveCompletedLesson`, `isLessonCompleted` |

Each regular expression is given a hand-written match semantics:

- `[\s\S]*?` followed by a lookahead `(?=a|b|$)` stops at the first index where
  one of the stops matches, or at the end of the input. There is no `m` flag,
  so `$` means the end of the input.
- In `SCORE:\s*\d+` the greedy `\s*` and `\d+` are deterministic, because a
  digit is never whitespace (`Patterns.ScoreLabelIsGreedy`).
- In `\n\d+\.\s` the digit run is forced, because the `.` has to follow it
  (`Patterns.ItemNumberIsForced`).
- `/i` without the `u` flag never folds a non-ASCII character onto an ASCII
  one. So `SCORE:` matches only the ASCII letters of the word, in either case.

The JavaScript truthiness tests are modelled where the code relies on them:

- An empty evaluation capture is falsy. It leaves the text untouched.
- An empty content capture is also falsy. The whole working text, trimmed,
  becomes the original text.
- `filter(Boolean)` drops exactly-empty pieces only.
- `!!evaluation` is the non-emptiness of the feedback.

The tutor prompt asks for a score from 1 to 5 (src/lib/services/openai.js:173
and :183). The parser does not clamp `parseInt`'s result, and the model follows
the parser: `SCORE: 9` reads as 9 (`ParserRoundTrip.UnclampedScore`).

## Model

| member | source | states |
|---|---|---|
| Parser.ExtractTranslation | src/lib/utils/helpers.js:16-75 | The goal flag is set exactly when `[GOAL_COMPLETED]` occurs anywhere. `hasEvaluation` holds exactly when the evaluation text is non-empty. The type is question exactly when the text left by the evaluation step contains `[question]`. With no `[EVALUATION]` the score is 0 and there is no evaluation. Every returned text and option is trimmed. Score, evaluation, original/translation and options are those of the evaluation, content and options steps, in that order, each on the text the evaluation step leaves |
| Parser.NoMarkersAtAll | src/lib/utils/helpers.js:16-75 | A text with no evaluation, type or options marker parses as a statement. The original is the whole text trimmed. There is no translation, no options, score 0 and no evaluation. The goal flag still follows the goal marker |
| Parser.Evaluate | src/lib/utils/helpers.js:29-41 | With no `[EVALUATION]`, or an empty capture, nothing changes and the score is 0. Otherwise, for the unique block the regular expression matches, score and feedback are read from the trimmed capture, and the working text becomes the text with that block cut out, trimmed. The feedback is always trimmed |
| Parser.EvaluationEnd | src/lib/utils/helpers.js:30 | The lazy capture after the first `[EVALUATION]` stops at the first `\n[question]`, `\n[statement]` or `\n[OPTIONS]`, or at the end of the input, and no other block fits that description |
| Parser.EvaluationBlockFound | src/lib/utils/helpers.js:30 | The scanned end is the end of the declarative evaluation block, and that block is unique |
| Parser.CutEvaluation | src/lib/utils/helpers.js:31-41 | An empty capture changes nothing. A non-empty one yields score and feedback from the trimmed capture, and the rest is the text without the block `text[p..j]`, trimmed |
| Parser.ScoreAndFeedbackAt | src/lib/utils/helpers.js:33-36 | With a score label whose leftmost greedy match starts at `q`, uses `a` whitespace characters and `b` digits: the score is the decimal value of those digits, and the feedback is the text with the match removed, trimmed |
| Parser.ScoreAndFeedback | src/lib/utils/helpers.js:33-39 | The feedback is unpadded whenever the evaluation text is. The score and feedback themselves are characterised by `Parser.ScoreAndFeedbackAt` (a label is present) and `Parser.ScoreAndFeedbackNone` (none is) |
| Parser.ScoreAndFeedbackNone | src/lib/utils/helpers.js:37-39 | With no way to match `SCORE:\s*\d+`, the score stays 0 and the whole evaluation text is the feedback |
| Parser.NoScoreSplit | src/lib/utils/helpers.js:33 | When the search for `SCORE:\s*\d+` finds nothing, no split of the text into a label, a whitespace run and a non-empty digit run exists anywhere |
| Parser.ScoreMatchIsFirstScore | src/lib/utils/helpers.js:33 | The engine's leftmost match of the score label is the declarative first score (leftmost start, longest digit run), and no other split is |
| Parser.Content | src/lib/utils/helpers.js:48-56 | Two cases give the whole text trimmed as the original and an empty translation: no type marker anywhere, or an empty capture after the first marker. Otherwise the result is the `:::` split of the unique content block the regular expression matches. Both texts are trimmed |
| Parser.ContentBlockFound | src/lib/utils/helpers.js:49 | The content block starts at the first `[statement]`/`[question]` and stops at the first `\n[OPTIONS]` after it, or at the end. No other block fits |
| Parser.Parts | src/lib/utils/helpers.js:51-53 | The original is the text before the first `:::`, trimmed. The translation is the text between the first and second `:::`, or to the end when there is one `:::`, trimmed, and empty with none. Text after a second `:::` is dropped |
| Parser.SplitLiteralParts | src/lib/utils/helpers.js:51 | The first two pieces of `split(':::')`, described by the first and next occurrences of the separator |
| Parser.OptionList | src/lib/utils/helpers.js:58-63 | No `[OPTIONS]` gives no options. Otherwise the options are the block after the first marker, split at `\n<digits>.<space>`, with exactly-empty pieces dropped, each trimmed, in order |
| Parser.DropEmpty | src/lib/utils/helpers.js:61 | `filter(Boolean)`: every kept piece is non-empty, a string is kept exactly when it is a non-empty piece, the result is no longer than the input, and a list without empty pieces is unchanged. Order and repeats are fixed by `Parser.DropEmptyConcat` and `Parser.DropEmptySingle` |
| Parser.DropEmptyConcat | src/lib/utils/helpers.js:61 | Filtering a concatenation is concatenating the filtered parts, so the filter keeps order and repeats |
| Parser.DropEmptySingle | src/lib/utils/helpers.js:61 | A single piece is kept exactly when it is non-empty. Together with `Parser.DropEmptyConcat` this determines the result for every list |
| Parser.TrimEach | src/lib/utils/helpers.js:62 | Element-wise `trim`, same length |
| Patterns.Search | src/lib/utils/helpers.js:30 | The leftmost index at or after `from` where the pattern matches; nothing matches before it; none means no match anywhere |
| Patterns.SearchFindsLeftmost | src/lib/utils/helpers.js:30 | Conversely, a match with no match before it is what the search returns |
| Patterns.ScanTo | src/lib/utils/helpers.js:30 | A lazy `[\s\S]*?` followed by `(?=stop\|$)` ends at the first index where the stop matches, else at the end of the input |
| Patterns.Contains | src/lib/utils/helpers.js:25 | `includes` holds exactly when the literal occurs at some index |
| Patterns.ScoreLabelIsGreedy | src/lib/utils/helpers.js:33 | `SCORE:\s*\d+` matches exactly when some whitespace/digit split exists. Every split uses all the whitespace, and the match ends after the longest digit run |
| Patterns.ItemNumberIsForced | src/lib/utils/helpers.js:61 | `\n\d+\.\s` matches exactly when some digit split exists, and then only one way |
| Patterns.RemoveFirst | src/lib/utils/helpers.js:36 | `replace(pattern, '')` cuts out the leftmost match, and leaves the text unchanged when nothing matches |
| Patterns.RemoveFirstRegion | src/lib/utils/helpers.js:40 | `text.replace(match[0], '')` removes exactly the matched block: no earlier copy of it can exist, since every copy starts with `[EVALUATION]` |
| Patterns.MatchEnd | src/lib/utils/helpers.js:30-61 | The match semantics of the regular expressions at lines 30, 33, 49 and 61. Where a match starting at `i` ends: never past the text, and strictly after `i` for the patterns that cannot match empty. That this is the backtracking engine's outcome is stated by `Patterns.ScoreLabelIsGreedy` and `Patterns.ItemNumberIsForced` |
| Patterns.Split | src/lib/utils/helpers.js:51-61 | `split` at lines 51 and 61 always gives at least one piece. `Patterns.SplitFirstPiece` fixes the first piece and `Patterns.SplitJoinLiteral` the whole result for the literal split at line 51. For the pattern split at line 61, `Patterns.SplitRoundTrip` states only that the pieces interleaved with the matched separators give the input; the later pieces are fixed by the definition's recursion on the text after each leftmost match |
| Patterns.SplitFirstPiece | src/lib/utils/helpers.js:51 | The first piece of `split` is what precedes the leftmost match, or the whole text when nothing matches. There are further pieces exactly when there is a match |
| Patterns.SplitRoundTrip | src/lib/utils/helpers.js:61 | `split` loses only the separators: putting them back between the pieces gives the input |
| Patterns.SplitJoinLiteral | src/lib/utils/helpers.js:51 | Splitting at a non-empty literal and joining with it gives the input back |
| Text.Trim | src/lib/utils/helpers.js:32 | `trim` returns an unpadded slice of the input with only whitespace around it |
| Text.TrimmingIsTrim | src/lib/utils/helpers.js:32 | Any unpadded slice with only whitespace around it is what `trim` returns, so `Text.Trim` meets its declarative description and nothing else does |
| Text.TrimIdempotent | src/lib/utils/helpers.js:36 | Trimming twice is trimming once |
| Text.TrimPadded | src/lib/utils/helpers.js:52 | Whitespace added on either side does not survive `trim` |
| Text.DecimalValue | src/lib/utils/helpers.js:35 | `parseInt(digits, 10)` of a run of `k` digits is below 10^k. `Text.DecimalRoundTrip` and `Text.DecimalLeadingZero` pin the value down |
| Text.DecimalLeadingZero | src/lib/utils/helpers.js:35 | A leading zero does not change the value, so `SCORE: 04` reads as 4 |
| Text.DecimalRoundTrip | src/lib/utils/helpers.js:35 | `parseInt` of the decimal numeral of `n` is `n` |
| ParserRoundTrip.RenderRoundTrip | src/lib/utils/helpers.js:16-75 | For every well-formed reply, parsing its rendering gives back every field: type, both texts, options, score, feedback, `hasEvaluation` and the goal flag |
| ParserRoundTrip.GoalFound | src/lib/utils/helpers.js:25-27 | The rendered reply contains `[GOAL_COMPLETED]` exactly when the goal flag is set |
| ParserRoundTrip.ScoreLineRoundTrip | src/lib/utils/helpers.js:33-36 | `SCORE: <n> <feedback>` reads back as score `n` and that feedback |
| ParserRoundTrip.PartsRendered | src/lib/utils/helpers.js:51-53 | `original:::translation` splits back into the two texts |
| ParserRoundTrip.OptionsFound | src/lib/utils/helpers.js:58-63 | A rendered numbered list after `[OPTIONS]` reads back as the options, in order |
| ParserRoundTrip.QuestionWithoutEvaluation | src/lib/utils/helpers.js:43-56 | `[question]¿Qué quieres comer?:::What do you want to eat?` gives a question with both texts, score 0 and no evaluation |
| ParserRoundTrip.ScoredStatement | src/lib/utils/helpers.js:29-41 | An evaluation block `SCORE: 4 Good job` gives score 4, feedback `Good job` and `hasEvaluation` |
| ParserRoundTrip.UnclampedScore | src/lib/utils/helpers.js:30-36 | `SCORE: 9` reads as 9, outside the 1-5 scale, with the goal flag and two options read back |
| ParserRoundTrip.GoalMarkerSurvives | src/lib/utils/helpers.js:25-56 | The goal marker is not removed: `[GOAL_COMPLETED] Hola` is a statement whose original text still holds the marker, with the goal flag set |
| Display.TruncateText | src/lib/utils/helpers.js:96-99 | An empty text, or one within the limit, is returned as it is. For `0 <= maxLength < length` the result is the first `maxLength` characters followed by `...`, of length `maxLength + 3`. A negative limit counts back from the end |
| Display.SliceEnd | src/lib/utils/helpers.js:98 | `slice(0, end)` keeps an end within the text, gives the length for an end past it, and counts a negative end back from the length with 0 as the floor |
| Display.TruncateTextDefault | src/lib/utils/helpers.js:96-99 | With the default limit of 100, a text of at most 100 characters is kept, and a longer one becomes its first 100 characters followed by `...`, 103 in all |
| Display.TruncateKeepsPrefix | src/lib/utils/helpers.js:96-99 | Whatever the limit, the result is the text itself or a prefix of it followed by `...` |
| Display.TruncateBounded | src/lib/utils/helpers.js:96-99 | With a non-negative limit, the result is no longer than the text when the text fits, and no longer than the limit plus 3 otherwise |
| Display.TruncateIdempotent | src/lib/utils/helpers.js:96-99 | With a non-negative limit, truncating twice is truncating once |
| Display.NegativeLimitIsNotIdempotent | src/lib/utils/helpers.js:98 | With limit -1, `abcd` becomes `abc...` and then `abc.....`, so idempotence needs a non-negative limit |
| Display.DifficultyGradient | src/lib/utils/helpers.js:126-139 | The intermediate and advanced classes are chosen exactly when the difficulty spells that word in any ASCII case. Every other string, the unknown ones included, gets the beginner class |
| Display.LowerMatchesIgnoringCase | src/lib/utils/helpers.js:127 | Lower-casing equals an all-lower-case word exactly when the string spells it in any case |
| Display.GradientFollowsLevel | src/lib/utils/helpers.js:126-139 | For every input, the gradient is the class of the level a case-insensitive reading of the difficulty names |
| Display.LevelNameSelectsItsGradient | src/lib/utils/helpers.js:129-135 | Each level's name, in any ASCII case, selects that level's class |
| Lessons.FindLesson | src/lib/data/lessons.js:78 | `find` returns nothing exactly when no lesson has the id. Otherwise it returns the first lesson with that id |
| Lessons.GetLessonById | src/lib/data/lessons.js:77-79 | The result is a catalog lesson with the requested id, or nothing exactly when no catalog lesson has it; there is no default lesson |
| Lessons.FindDistinct | src/lib/data/lessons.js:78 | With distinct ids, finding a member's id returns that member |
| Lessons.CatalogIdsListed | src/lib/data/lessons.js:9-70 | The catalog has six lessons, with ids `cafe-ordering`, `train-station`, `business-meeting`, `grocery-shopping`, `doctor-visit`, `hotel-checkin` |
| Lessons.CatalogIdsDistinct | src/lib/data/lessons.js:9-70 | The six catalog ids are pairwise distinct |
| Lessons.CatalogAllSpanish | src/lib/data/lessons.js:9-70 | Every lesson's language is the default language, Spanish |
| Lessons.LookupFindsEveryCatalogLesson | src/lib/data/lessons.js:77-79 | Looking up any catalog lesson's id gives back exactly that lesson |
| Lessons.UnknownIdFindsNothing | src/lib/data/lessons.js:77-79 | An id no lesson carries, `airport`, finds nothing |
| Completion.GetCompletedLessons | src/lib/data/lessons.js:85-95 | Empty outside a browser, when storage holds no entry, or when it does not parse. Otherwise it is the stored record |
| Completion.SaveCompletedLesson | src/lib/data/lessons.js:101-111 | Outside a browser, or when the write fails, storage is unchanged. Otherwise it holds the record as read, with every other entry kept. The lesson is set to the timestamp, except that `__proto__` is dropped when the record lacks it as its own key, because that assignment reaches the inherited setter, which ignores a string |
| Completion.IsLessonCompleted | src/lib/data/lessons.js:118-121 | A lesson counts as completed only in a browser, with a record that holds the lesson as its own entry, and then exactly when its timestamp is non-empty |
| Completion.IsLessonCompletedAsWritten | src/lib/data/lessons.js:118-121 | `!!completed[id]` agrees with the own-entry check whenever the id is not a name a plain object inherits, or the record holds it as its own key. For an inherited name the record lacks, it is true |
| Completion.InheritedNameReadsAsCompleted | src/lib/data/lessons.js:118-121 | `constructor` reads as completed on an empty store even outside a browser, while the own-entry check says no |
| Completion.CatalogIdsAreNotInherited | src/lib/data/lessons.js:118-121 | No catalog id is an inherited name, so for catalog lessons the check as written gives the right answer |
| Completion.NothingCompletedOutsideBrowser | src/lib/data/lessons.js:85-86 | Outside a browser the record is empty and no lesson is completed |
| Completion.AbsentIsNotCompleted | src/lib/data/lessons.js:118-121 | A lesson absent from the record as read is not completed |
| Completion.SaveThenCompleted | src/lib/data/lessons.js:101-121 | After a successful save with a non-empty timestamp, the lesson is completed exactly when its id is not `__proto__` or the record already held it |
| Completion.ProtoSaveIsLost | src/lib/data/lessons.js:105-107 | Saving under `__proto__` into a record without that own key writes the record back unchanged, and the lesson is still not completed |
| Completion.CatalogSaveThenCompleted | src/lib/data/lessons.js:101-121 | Every catalog lesson is completed after a successful save of it with a non-empty timestamp |
| Completion.SaveKeepsOthers | src/lib/data/lessons.js:105-107 | A save changes the completion of no other lesson |
| Completion.SaveIdempotent | src/lib/data/lessons.js:101-111 | Saving the same lesson at the same time twice is saving it once |
| Completion.SavesCommute | src/lib/data/lessons.js:105-107 | Successful saves of two different lessons give the same record in either order |
| Completion.SaveOverMalformed | src/lib/data/lessons.js:88-107 | A save over an entry that does not parse starts a fresh record holding only that lesson, or an empty record for `__proto__` |

## Left out

- Display.TruncateText: the limit is an integer. A fractional or `NaN` `maxLength` is not modelled. Lengths are counted in Unicode scalar values. JavaScript counts UTF-16 code units, so a text with characters outside the Basic Multilingual Plane is measured and cut differently. `null`/`undefined` texts are not modelled; only strings are.
- Text.DecimalValue: `parseInt` is exact here for every digit run. JavaScript loses precision above 2^53.
- Display.DifficultyGradient: `toLowerCase` is modelled as ASCII lower-casing. This is exact for the three level names: no other character lower-cases to one of their letters ('İ' lower-cases to two characters). A non-string difficulty, which makes the source throw, is not modelled.
- Parser.ExtractTranslation: the input is always a string. The source throws on a non-string, and that is not modelled.
- ParserRoundTrip.RenderRoundTrip: proved for well-formed replies only. Every text must be free of `[`, line breaks and padding, the original text must have no `:`, and every option must be non-empty. Other replies parse too, but are not claimed to read back.
- Completion.SaveCompletedLesson, Completion.GetCompletedLessons, Completion.IsLessonCompleted: a stored entry that parses to something other than a plain object (`null`, a number, an array) is not modelled. On a stored `null`, `isLessonCompleted` throws a `TypeError`, because `null[lessonId]` at src/lib/data/lessons.js:120 is outside any `try`. On a number, strict-mode assignment throws inside the `try` of the save. On an array, the entry is lost when the record is written back. Non-string values in a parsed record (`{"a": 0}`, `{"a": true}`, `{"a": {}}`) are not modelled either: for them `!!completed[id]` follows JavaScript truthiness, not non-emptiness. The app itself only writes ISO timestamp strings.
- The real `localStorage`, `JSON.parse`/`JSON.stringify`, `new Date().toISOString()` and `console.error` are left out. Storage contents, parse failure, write success and the browser flag are inputs, and the timestamp is an opaque string.
- `formatTime` (locale and clock), `generateId` (clock and randomness), `isMobileDevice` (user agent), `scrollToBottom` (DOM) and `getRandomName` (randomness) are left out.
- The OpenAI service module and the two API routes are left out. They are HTTP I/O and audio plumbing around a remote model, and they are not part of this model.
- The prompt text that asks the model for JSON is left out. It is string interpolation, and the parser reads the marker layout, not JSON.

## Findings

| source | as written | input that shows it | evidently intended | confidence | as-written member | corrected member |
|---|---|---|---|---|---|---|
| src/lib/data/lessons.js:118-121 | `!!completed[lessonId]` reads inherited `Object.prototype` members of the parsed record | `isLessonCompleted("constructor")` on an empty store, or outside a browser, returns true | A lesson is completed only when the stored record holds it as its own entry | not executed | Completion.IsLessonCompletedAsWritten (witness Completion.InheritedNameReadsAsCompleted) | Completion.IsLessonCompleted (Completion.AbsentIsNotCompleted, Completion.NothingCompletedOutsideBrowser) |
