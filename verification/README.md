# AI exam revision quiz: the non-UI core, in Dafny

`app.py` is a Streamlit page. It asks a hosted model for multiple-choice
questions, turns the reply into question records, shows them with lettered
options, and scores the user's answers. This project models the parts of that
script that are plain data processing:

- **Reply sanitising** (`Sanitise`, app.py lines 60-64). The six-backtick
  literal and every `$` are deleted, whitespace is stripped, and the text is cut
  to the span from the first `[` to the last `]` when such a span exists.
- **Question normalisation and fallback** (`Questions`, lines 66-95). This works
  over an abstract parsed JSON value (`JsonValue.Json`). `json.loads` itself is a
  parameter. The result is at most `count` records, each with exactly four
  options, a trimmed and upper-cased `correct` string, and defaults for missing
  keys. Any Python exception in that block gives `count` copies of the canned
  question instead.
- **Scoring** (`Scoring`, lines 97-102). The score counts the indices whose
  stored answer equals the record's `correct` string.
- **Labelling and the session** (`QuizSession`, lines 27-33, 107-144). This
  covers the `"A) text"` labels, the stored answer letter (the label's first
  character), the "Generate quiz" transition that replaces the quiz and clears
  answers and score, and "Submit answers".

The Python string operations the code relies on are in `Text`: `strip`,
`upper`, `replace(pat, "")`, `find` and `rfind`.

## Behaviour worth knowing

- A failed model call empties the quiz. `generate_questions` returns `[]`
  (app.py line 57), and lines 113-115 store it, with no answers and no score
  (`QuizSession.FailedCallClearsQuiz`).
- Only the literal six-backtick string is deleted (line 60), not
  three-backtick fences. A fence around the array is still dropped by the
  bracket extraction of lines 61-64.
- The fallback of lines 88-95 is not limited to replies that are not lists. A
  JSON string can be sliced and iterated (lines 70 and 77). The empty string
  `""` therefore gives an empty quiz, and a non-empty string falls back
  because its characters have no `.get` (`Questions.StringReply`).
- A short reply gives a short list, with no padding (lines 70-87,
  `Questions.ListSuccess`).
- On the success path `correct` is not checked to be one of A-D (line 73). It
  is the reply's string, stripped and upper-cased.
- The text handed to the parser can still contain six backticks. Line 60
  deletes `$` after the fences, so `"```$```"` becomes a fence
  (`Sanitise.FenceCanSurvive`). No fence survives when the reply has no `$`
  (`Sanitise.NoFenceWithoutDollar`).
- Every question holds an answer by the time "Submit answers" is pressed.
  Lines 123-138 run on every interaction, and a radio nobody touched returns
  its first label, so an untouched question stores `A`. An unanswered quiz
  scores the number of questions whose `correct` is `A`
  (`QuizSession.UntouchedQuizScoresA`). The fallback quiz submitted untouched
  gets full marks (`QuizSession.UntouchedFallbackFullMarks`).

## Model

| member | source | states |
|---|---|---|
| Text.StripBy | app.py:60 | stripping a set of characters leaves an infix of the input, at the offset where the first kept character stands |
| Text.StripCharacterised | app.py:60 | `strip()` keeps an infix; everything cut off on either side is whitespace; the result does not start or end with whitespace |
| Text.StripIdempotent | app.py:60 | stripping an already stripped string changes nothing |
| Text.UpperChar | app.py:73 | upper-casing leaves no ASCII lower-case letter, maps a-z to A-Z, and keeps every other character |
| Text.UpperCharacterised | app.py:73 | the ASCII model of `upper()` keeps the length and upper-cases each character in place |
| Text.UpperIdempotent | app.py:73 | upper-casing an upper-cased string changes nothing |
| Text.RemoveAll | app.py:60 | `replace(pat, "")` never lengthens the text and introduces no character the input lacked |
| Text.RemoveAllDropsWholeCopies | app.py:60 | `replace(pat, "")` shortens the text by a whole number of copies of the pattern |
| Text.RemoveAllKeepsOthers | app.py:60 | every character that is not part of the pattern occurs as often after `replace(pat, "")` as before |
| Text.RemoveAbsentIsIdentity | app.py:60 | when the pattern does not occur, `replace` returns the input unchanged |
| Text.RemoveCharGone | app.py:60 | after `replace("$", "")` no `$` is left |
| Text.Find | app.py:61 | `find("[")` is -1 exactly when there is no `[`; otherwise it is an index holding `[` with no `[` before it |
| Text.RFind | app.py:62 | `rfind("]")` is -1 exactly when there is no `]`; otherwise it is an index holding `]` with no `]` after it |
| Sanitise.Extract | app.py:61-64 | the result is the text unchanged, or an infix that starts with `[`, ends with `]`, and has no `[` before it and no `]` after it in the text |
| Sanitise.ExtractCharacterised | app.py:61-64 | both directions: if no `[` precedes a `]`, the text is passed on unchanged; otherwise the result is the span from the first `[` to the last `]`, inclusive |
| Sanitise.ExtractIdempotent | app.py:61-64 | extracting from an extracted text changes nothing |
| Sanitise.SanitiseRemovesDollar | app.py:60-64 | the text handed to the parser has no `$` and is an infix of the cleaned reply |
| Sanitise.NoFenceAfterRemoval | app.py:60 | after the first replace, no six backticks in a row are left: the left-to-right scan cuts each run of backticks to fewer than six |
| Sanitise.NoFenceWithoutDollar | app.py:60-64 | for a reply without `$`, the text handed to the parser contains no six-backtick fence |
| Sanitise.FenceCanSurvive | app.py:60 | the reply "```$```" is handed to the parser as a fence, because `$` is removed after the fences |
| JsonValue.Lookup | app.py:71-74 | a key is found exactly when some member has that name, and the value found is bound to that name |
| JsonValue.Get | app.py:71-74 | `dict.get` gives the default exactly when the key is missing, and otherwise a value bound to the key |
| JsonValue.AsList | app.py:77 | `list(v)` succeeds exactly for lists, strings and dicts; a list gives its items, a string its characters in order as one-character strings, a dict its keys in order |
| JsonValue.Take | app.py:70 | `data[:n]` succeeds exactly for lists and strings and yields at most `n` elements; a list keeps its first `min(n, len)` items, a string its first `min(n, len)` characters as one-character strings |
| Questions.PadOptions | app.py:78-79 | padding gives exactly four options, keeps the given ones as a prefix, and fills the rest with "Dummy option" |
| Questions.NormaliseOptions | app.py:77-79 | always four options; the first `min(4, len)` are the input's, in order; every later position is "Dummy option" |
| Questions.CorrectField | app.py:71-73 | `correct` can be read exactly when it is absent or a string; it is then that string stripped and upper-cased, or "A" when the key is absent |
| Questions.OptionsField | app.py:72-79 | the options can be read exactly when they are absent or iterable; there are then four of them, the element's list cut or padded to four, or four placeholders when the key is absent |
| Questions.NormaliseQuestion | app.py:70-86 | an element normalises exactly when it is a dict whose `correct` (if present) is a string and whose `options` (if present) is iterable; the record then has four options |
| Questions.NormalisedText | app.py:71-86 | the record's `question` and `explanation` are the element's values when present and "No question" and "" when absent; its `correct` and `options` are those `CorrectField` and `OptionsField` give |
| Questions.NormaliseAll | app.py:70-86 | the loop succeeds exactly when every element normalises; the records then correspond one to one, in order, to the elements |
| Questions.Fallback | app.py:88-95 | the fallback is exactly `count` copies of the canned question, each with four options and answer "A" |
| Questions.FromParsed | app.py:66-95 | at most `count` records, each with four options; a parse failure gives the fallback |
| Questions.GenerateQuestions | app.py:52-95 | a failed model call gives no questions; otherwise at most `count` records, each with four options |
| Questions.ListSuccess | app.py:70-87 | if the first `count` elements of a parsed list all normalise, the result has `min(count, len)` records (short replies are not padded), record `k` being element `k` normalised |
| Questions.ListFailure | app.py:88-95 | one element among the first `count` that raises makes the whole result the fallback list |
| Questions.UnsliceableFallsBack | app.py:66-95 | a parsed number, boolean, null or dict cannot be sliced, and the fallback list comes back |
| Questions.StringReply | app.py:67-87 | a parsed empty string gives an empty quiz; a non-empty one falls back |
| Scoring.CountMatches | app.py:97-102 | the running count over the first `k` questions equals the number of matched indices below `k`, so it is at most `k` |
| Scoring.Score | app.py:97-102 | the score is the size of the set of indices whose stored answer equals the record's `correct`, and at most the number of questions |
| Scoring.CalculateScore | app.py:97-102 | the loop's count equals the size of the matched-index set and never exceeds the number of questions |
| Scoring.NoAnswersScoreZero | app.py:97-102 | an empty answer map scores 0; missing keys are non-matches, not errors |
| Scoring.AllCorrectFullScore | app.py:97-102 | answering every question with its `correct` string scores the full length |
| Scoring.ScoreAfterAnswer | app.py:97-102 | replacing one stored answer changes the score only by losing that question's old match and gaining its new one |
| Scoring.ScoreIgnoresOtherKeys | app.py:99-100 | answers stored under indices outside the quiz never change the score |
| QuizSession.LabelOptions | app.py:121-130 | one label per option, at most four; label `idx` starts with letter `idx` of A-D, then ") ", then the option's text |
| QuizSession.AnswerOf | app.py:138 | the stored answer is the first character of the chosen label, or "" when nothing is chosen |
| QuizSession.ChosenLetterRoundTrip | app.py:121-138 | choosing the label of option `idx` stores one of A-D, and that letter names position `idx` again |
| QuizSession.RecordAnswer | app.py:138 | storing a choice sets that question's answer and leaves the other answers, the questions and the score unchanged |
| QuizSession.ChoiceCountsIff | app.py:128-138 | choosing option `idx` makes the question count exactly when its `correct` is the letter of position `idx` |
| QuizSession.GenerateQuiz | app.py:107-115 | without an API key the session is unchanged; with one, the questions are replaced, the answers are emptied and the score is cleared |
| QuizSession.Submit | app.py:143-144 | with questions present, submitting sets the score to the number of matched indices, which is at most the number of questions, and changes nothing else; with no questions it does nothing |
| QuizSession.ScoreAfterChoice | app.py:128-144 | choosing option `idx` and then submitting gains a point exactly when `idx` is the expected letter's position, and loses that question's previous match |
| QuizSession.AllCorrectScoresAll | app.py:143-144 | submitting with every question answered correctly scores the full length of the quiz |
| QuizSession.ShowQuiz | app.py:118-138 | showing the quiz stores, for every question, the letter of its radio's current choice, and keeps the questions, the score and the answers stored under other indices |
| QuizSession.ShownAnswersAreLetters | app.py:121-138 | when every radio's choice is one of its labels, every stored answer is one of A-D and names the chosen position |
| QuizSession.ShowThenSubmit | app.py:123-144 | showing then submitting scores exactly the questions whose radio shows the expected letter |
| QuizSession.UntouchedChoices | app.py:131-135 | an untouched radio returns its first label, the one for option A, or nothing when it has no options |
| QuizSession.UntouchedQuizScoresA | app.py:123-144 | submitting without touching any radio scores the number of questions whose expected letter is A |
| QuizSession.UntouchedFallbackFullMarks | app.py:88-144 | the fallback quiz submitted untouched gets full marks |
| QuizSession.NoKeyNoQuiz | app.py:28-109 | on a fresh page, "Generate quiz" without an API key leaves the empty initial session, and showing and submitting change nothing |
| QuizSession.FailedCallClearsQuiz | app.py:52-57 | when the model call fails, "Generate quiz" leaves an empty quiz with no answers and no score, not the previous quiz |

## Left out

- Streamlit widgets, page setup and the sidebar (lines 7-26) are UI plumbing.
  The session-state defaults of lines 27-33 are `QuizSession.Initial`.
  The order of one rerun (generate, then show, then submit) is not a member of
  its own; `GenerateQuiz`, `ShowQuiz` and `Submit` are the three steps. What
  each radio returns is an input, `Option<string>`; `UntouchedChoices` gives
  the untouched case.
- The Gemini client set-up and the `generate_content` call (lines 13-19, 52-54)
  are network calls. Their outcome is an input: `Reply`, either the reply text or
  a failed call.
- The prompt text (lines 38-50) and the results page wording (lines 146-173) are
  presentation only. The difficulty setting feeds only the prompt, so `Params`
  omits it.
- The "Model not initialized" branch (line 110) cannot be reached, because a
  model exists whenever a key does. Its error message, like the missing-key
  message, is not modelled.
- `json.loads` (line 67) is a library parser. It is the parameter
  `parse: string -> Option<Json>`, where `None` stands for a parse exception.
- Python's `str()` applied to an option value inside the label f-string is the
  parameter `show`.
- The slider bounds on the question count (3-10, line 25) are not enforced. The
  model accepts any natural `count`.
- Text.UpperChar: maps only the ASCII letters a-z. Python's `str.upper` also
  maps letters of other scripts and can lengthen a string (`ß` becomes `SS`).
- Text.UpperCharacterised: holds for the ASCII model of `upper()` only.
  Python's `str.upper` also maps non-ASCII letters and can lengthen a string
  (`ß` becomes `SS`), so the length and the in-place mapping are not
  promised for such text.
- A JSON float is an exact `real`, not an IEEE double, and the `NaN` and
  `Infinity` values Python's parser accepts are not modelled. Only the
  option text that `show` renders depends on a number's value.
- JsonValue.Lookup: takes the first member with the name. An object here stands
  for the dict `json.loads` built, whose keys are distinct. The rule Python uses
  for repeated names in the raw text (last value wins) is not modelled.
