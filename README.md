# fgstudy study assistant — quiz, summary and explanation logic in Dafny

The application has three tabs. Each one forwards user text to a hosted
language model and renders the answer:

- **Summarize**: notes become a bullet list.
- **Explain**: a topic becomes paragraphs.
- **Quiz**: text becomes multiple-choice questions that the user answers, grades and retakes.

This project models the behaviour those components carry themselves:

- the state each tab's handlers update (a `class` per component);
- the form validation that gates each submission;
- the values derived from the state: the quiz score, the "time taken" text,
  the clipboard text of a quiz, the summary bullets and the explanation
  paragraphs.

The call to the model is a parameter. For the summary and the explanation
it is an `Option`: the generated value, or `None` when the call failed. A
flow that resolves with a null output (its `output!` assertion checks
nothing at run time) lands there too, because reading `result.summary` or
`result.explanation` of null throws inside the same `try`. The quiz
generator stores its result without reading from it, so its outcome is a
`Generation`: `Resolved(output)`, where the output may be `None` for null,
or `Rejected`. A resolved null leaves a start time with no quiz. Clock
readings (`Date.now()`) are integer parameters.

Modules:

- `Wrappers`: `Option` and a map lookup that stands for reading a record key that may be `undefined`.
- `Strings`: JavaScript `join`, `split` with a string separator (leftmost, non-overlapping matches) and `trim`, with their laws.
- `Decimal`: how template literals render integers, and a parser that reads them back.
- `Grading`: questions and quizzes, the score, and the elapsed-seconds text shared by both quiz components.
- `QuizGenerator`: the quiz form, the clipboard text, and `QuizSession`, the state of `quiz-generator.tsx`.
- `QuizDisplay`: option feedback, the "all answered" gate, and `QuizAttempt`, the state of `quiz-display.tsx`.
- `NoteSummarizer`: the notes form, the bullet items, and `SummaryPanel`.
- `TopicExplainer`: the topic form, the paragraphs, and `ExplanationPanel`.

The two quiz components come from different versions of the props. The
generator hands its own state down to the display. The display in the
repository keeps its own selections, results flag and end time. Each is
therefore modelled with its own state and not wired to the other.

Each `async onSubmit` handler is split in two at its `await`:

- `BeginSubmit` is the part before the call.
- `FinishSubmit(result)` is the part after it settles, including the `finally` block.

`Submit` runs the form check and then both halves. A submission that fails
the form schema never reaches `onSubmit`, so it changes nothing.

## Model

| member | source | states |
|---|---|---|
| `Strings.Split` | src/components/topic-explainer.tsx:90 | `split` with a non-empty separator always yields at least one piece (`"".split(sep)` is `[""]`) |
| `Strings.JoinSplit` | src/components/topic-explainer.tsx:90 | joining the pieces of a split with the separator gives back the original text exactly |
| `Strings.SplitPiecesAvoidSep` | src/components/topic-explainer.tsx:90 | no piece of a split contains the separator |
| `Strings.SplitJoinChar` | src/components/quiz-generator.tsx:94-96 | for a one-character separator that no piece contains, splitting the joined text gives back the pieces |
| `Strings.JoinAround` | src/components/quiz-generator.tsx:91-98 | piece k of a join sits between the joined earlier pieces and the joined later ones, separated by the separator |
| `Strings.JoinAt` | src/components/quiz-generator.tsx:91-98 | a joined text is the join of the first k pieces, the separator, and the join of the rest |
| `Strings.Join` | src/components/quiz-generator.tsx:91-98 | `xs.join(sep)`: "" for no pieces, the piece itself for one, pieces with `sep` between neighbours; characterised by `JoinAt` and `JoinAround`; it undoes `Split` (`JoinSplit`), and `Split` undoes it only for a one-character separator that no piece contains (`SplitJoinChar`) |
| `Strings.SplitHeadThenSep` | src/components/topic-explainer.tsx:90 | when a split has more than one piece, the text starts with the first piece followed by the separator |
| `Strings.SplitLeftmost` | src/components/topic-explainer.tsx:90 | occurrences are taken leftmost first: no piece but the last, extended by all but the last character of the separator, contains the separator |
| `Strings.Trim` | src/components/note-summarizer.tsx:92 | `trim()`: leading, then trailing ECMAScript whitespace removed; characterised by `TrimSpec` and `TrimEmptyIff` |
| `Strings.TrimStartSpec` | src/components/note-summarizer.tsx:92 | removing leading whitespace leaves a suffix that follows only whitespace and does not start with whitespace |
| `Strings.TrimEndSpec` | src/components/note-summarizer.tsx:92 | removing trailing whitespace leaves a prefix that precedes only whitespace and does not end with whitespace |
| `Strings.TrimSpec` | src/components/note-summarizer.tsx:92 | the trimmed text is a contiguous part of the line with only whitespace before and after it, and it neither starts nor ends with whitespace |
| `Strings.TrimEmptyIff` | src/components/note-summarizer.tsx:92 | `trim()` leaves nothing exactly when every character is ECMAScript whitespace or a line terminator |
| `Decimal.NatToString` | src/components/quiz-generator.tsx:111-114 | the rendering of a natural number is non-empty, all digits, with no leading zero |
| `Decimal.IntToString` | src/components/quiz-generator.tsx:111 | an integer renders as digits, with a leading '-' exactly when it is negative |
| `Decimal.NatRoundTrip` | src/components/quiz-generator.tsx:114 | parsing the rendering of a natural number gives the number |
| `Decimal.IntRoundTrip` | src/components/quiz-generator.tsx:111 | parsing the rendering of an integer gives the integer |
| `Decimal.NatCanonical` | src/components/quiz-generator.tsx:114 | the parser accepts only text the rendering produces: a parsed numeral is the rendering of its value (no leading zeros) |
| `Decimal.IntCanonical` | src/components/quiz-generator.tsx:111 | the same for integers: a parsed integer text is the rendering of its value ("-0" is refused) |
| `Grading.CorrectUpTo` | src/components/quiz-generator.tsx:103-105 | after folding over the first n questions, the running score is at most n |
| `Grading.CountCorrect` | src/components/quiz-generator.tsx:101-106 | the score never exceeds the number of questions |
| `Grading.CountIsCorrectSetSize` | src/components/quiz-generator.tsx:103-105 | the fold's score equals the number of indices whose selection is present and exactly equal to `correctAnswer` |
| `Grading.ScoreAtMostAnswered` | src/components/quiz-generator.tsx:104 | an absent selection never matches, so the score is at most the number of answered questions |
| `Grading.PerfectScoreIff` | src/components/quiz-generator.tsx:101-106 | full marks exactly when every question holds its correct answer |
| `Grading.ScoreDependsOnQuizIndices` | src/components/quiz-display.tsx:80-85 | two selection maps that agree on the quiz's indices give the same score |
| `Grading.ScoreAfterAnswer` | src/components/quiz-display.tsx:32-37 | overwriting one selection moves the score only by that question's point: its old point is lost, and a point is gained if the new text is correct |
| `Grading.ElapsedSeconds` | src/components/quiz-generator.tsx:110 | whole seconds are the floor of the millisecond difference: `s*1000 <= end-start < (s+1)*1000` |
| `Grading.FormatSeconds` | src/components/quiz-generator.tsx:111-114 | the exact text: "{s}s" below 60 (negative counts included), "{⌊s/60⌋}m {s mod 60}s" from 60 on; it ends in 's' and has the "m " mark exactly when the count is at least 60 |
| `Grading.FormatSecondsRoundTrip` | src/components/quiz-generator.tsx:108-115 | the text reads back as the seconds under a reader that accepts only a seconds text below 60 or a minutes text with at least one minute and a remainder below 60 |
| `Grading.ParseDurationCanonical` | src/components/quiz-generator.tsx:111-114 | every text that reader accepts is the rendering of the value it reads, so no two counts share a text |
| `Grading.FormatParseIff` | src/components/quiz-generator.tsx:111-114 | rendering `s` gives `t` exactly when reading `t` gives `s`: rendering and reading are inverse bijections |
| `Grading.FormatSecondsExamples` | src/components/quiz-generator.tsx:111-114 | 0 → "0s", 59 → "59s", 60 → "1m 0s", 90 → "1m 30s", 125 → "2m 5s" |
| `QuizGenerator.ValidQuizForm` | src/components/quiz-generator.tsx:28-34 | the form schema: at least 100 characters of text and a question count from 5 to 40 |
| `QuizGenerator.QuestionBlock` | src/components/quiz-generator.tsx:92-96 | a block opens with "{i+1}. ", the question and a line break; between that and the closing "\nCorrect Answer: ", correct answer and line break lie exactly the "   - {o}" option lines joined by "\n" |
| `QuizGenerator.ClipboardText` | src/components/quiz-generator.tsx:89-99 | empty exactly when there is no quiz or it has no questions; otherwise it opens with the first question's block |
| `QuizGenerator.ClipboardAppend` | src/components/quiz-generator.tsx:91-98 | blocks are in question order: one more question appends "\n" and its block, numbered by its position |
| `QuizGenerator.ClipboardBlockAt` | src/components/quiz-generator.tsx:91-98 | block k (numbered k+1, then the question, its "   - " option lines and its "Correct Answer:" line) sits between the joined earlier blocks and the joined later ones, newline-separated |
| `QuizGenerator.OptionLinesRecoverable` | src/components/quiz-generator.tsx:94-96 | when no option contains a line break, splitting a block's option part on "\n" recovers one "   - {o}" line per option, in order |
| `QuizGenerator.QuizSession.constructor` | src/components/quiz-generator.tsx:36-43 | initial state: no quiz, not loading, no timestamps, results hidden, no selections |
| `QuizGenerator.QuizSession.BeginSubmit` | src/components/quiz-generator.tsx:54-59 | before the call: loading, quiz cleared, results hidden, selections emptied, both timestamps cleared |
| `QuizGenerator.QuizSession.FinishSubmit` | src/components/quiz-generator.tsx:60-72 | a resolved call stores its output, even a null one, and the start time is the clock; a rejected call leaves both absent; loading ends either way; nothing else changes; a quiz is never held without a start time |
| `QuizGenerator.QuizSession.Submit` | src/components/quiz-generator.tsx:28-73 | accepted exactly when the text has at least 100 characters and the count is 5..40; rejected submissions change nothing; accepted ones leave the reset state with the outcome recorded and loading off |
| `QuizGenerator.QuizSession.CheckAnswers` | src/components/quiz-generator.tsx:75-79 | selections replaced by the given answers, end time set, results shown; quiz, start time and loading unchanged |
| `QuizGenerator.QuizSession.RetakeQuiz` | src/components/quiz-generator.tsx:81-87 | selections emptied, end time cleared, results hidden; quiz and start time kept |
| `QuizGenerator.QuizSession.Score` | src/components/quiz-generator.tsx:101-106 | 0 unless results are shown and a quiz exists; then the number of exact matches; never above the question count |
| `QuizGenerator.QuizSession.TimeTaken` | src/components/quiz-generator.tsx:108-115 | is exactly the duration text of the whole seconds between start and end, or "0s" when either timestamp is absent or 0; it reads back as the whole seconds between start and end, or as 0 ("0s") when either timestamp is absent or 0 |
| `QuizGenerator.RetakeScenario` | src/components/quiz-generator.tsx:75-87 | generate, check, retake (start time and quiz kept, score back to 0), check again with the same answers: both scores equal the number of correct answers |
| `QuizDisplay.OptionHighlight` | src/components/quiz-display.tsx:50-61 | a row is styled correct exactly when results are shown and it is the correct answer, wrong exactly when results are shown and it is the selected, incorrect option; plain otherwise |
| `QuizDisplay.OptionIcon` | src/components/quiz-display.tsx:63-75 | a check exactly when results are shown and the option is correct, a cross exactly when results are shown and it is the selected, incorrect option |
| `QuizDisplay.IconAgreesWithHighlight` | src/components/quiz-display.tsx:50-75 | `getIcon` follows the same three-way rule as `getOptionClass`: check on correct rows, cross on wrong rows, nothing on plain rows |
| `QuizDisplay.QuestionFeedback` | src/components/quiz-display.tsx:50-61 | hidden results mark nothing; once shown, an option is marked correct exactly when it equals `correctAnswer`, whatever was selected; it is marked wrong exactly when it is the selection and not correct; a correct selection marks nothing wrong |
| `QuizDisplay.IndexRange` | src/components/quiz-display.tsx:77-78 | the question indices 0..n-1, a set of size n |
| `QuizDisplay.AllAnsweredIff` | src/components/quiz-display.tsx:77-78 | with keys that are question indices, "key count equals question count" holds exactly when every question has a selection |
| `QuizDisplay.QuizAttempt.constructor` | src/components/quiz-display.tsx:25-30 | a new attempt has no selections, hidden results and no end time |
| `QuizDisplay.QuizAttempt.AnswerChange` | src/components/quiz-display.tsx:32-37 | for a question index of the quiz, entry i becomes the answer and every other entry is unchanged (a map update, hence idempotent); the attempt stays valid |
| `QuizDisplay.QuizAttempt.ChooseOption` | src/components/quiz-display.tsx:122-126 | the radio group changes the selection only while results are hidden |
| `QuizDisplay.QuizAttempt.CheckAnswers` | src/components/quiz-display.tsx:39-42 | end time set and results shown; selections unchanged |
| `QuizDisplay.QuizAttempt.RetakeQuiz` | src/components/quiz-display.tsx:44-48 | selections emptied, results hidden, end time cleared |
| `QuizDisplay.QuizAttempt.AllQuestionsAnswered` | src/components/quiz-display.tsx:77-78 | the key count equals the question count; in a valid attempt this holds exactly when every question has a selection |
| `QuizDisplay.QuizAttempt.OptionClass` | src/components/quiz-display.tsx:50-61 | styled correct exactly when results are shown and the option is correct; wrong exactly when results are shown and question i's stored selection is this incorrect option |
| `QuizDisplay.QuizAttempt.OptionIconAt` | src/components/quiz-display.tsx:63-75 | a check exactly when results are shown and the option is correct; a cross exactly when results are shown and question i's stored selection is this incorrect option |
| `QuizDisplay.QuizAttempt.PressButton` | src/components/quiz-display.tsx:148-151 | retakes while results are shown; otherwise checks only when every question is answered, and is disabled (no change) when not |
| `QuizDisplay.QuizAttempt.Score` | src/components/quiz-display.tsx:80-85 | 0 while results are hidden; otherwise the number of exact matches, bounded by the question count |
| `QuizDisplay.QuizAttempt.TimeTaken` | src/components/quiz-display.tsx:87-94 | is exactly the duration text of the whole seconds since the start prop, or "0s" while the end time is absent or 0; it reads back as the whole seconds since the start prop, or as 0 ("0s") while the end time is absent or 0 |
| `NoteSummarizer.ValidNotes` | src/components/note-summarizer.tsx:23-27 | the form schema: at least 50 characters of notes |
| `NoteSummarizer.RemoveMarkers` | src/components/note-summarizer.tsx:94 | removing markers never lengthens a line and introduces no character |
| `NoteSummarizer.NoMarkerUnchanged` | src/components/note-summarizer.tsx:94 | a line without "- " or "* " is rendered unchanged |
| `NoteSummarizer.RemoveMarkersKeepsVisible` | src/components/note-summarizer.tsx:94 | only marker characters are deleted: all characters other than '-', '*' and space survive, in order |
| `NoteSummarizer.RemoveMarkersSplice` | src/components/note-summarizer.tsx:94 | every "- " or "* " is deleted wherever it stands: the text before it and the text after it are cleaned independently |
| `NoteSummarizer.MarkerCanSurvive` | src/components/note-summarizer.tsx:94 | the global replace is a single pass: "--  x" becomes "- x", which still holds a marker |
| `NoteSummarizer.NonBlank` | src/components/note-summarizer.tsx:92 | the filter's test `line.trim().length > 0`; characterised by `NonBlankIff` |
| `NoteSummarizer.NonBlankIff` | src/components/note-summarizer.tsx:92 | a line is kept exactly when it has a non-whitespace character |
| `NoteSummarizer.KeepNonBlank` | src/components/note-summarizer.tsx:92 | the filter is no longer than its input |
| `NoteSummarizer.KeepNonBlankMembers` | src/components/note-summarizer.tsx:92 | the filter keeps only non-blank lines of its input, and keeps every non-blank line |
| `NoteSummarizer.KeepNonBlankAppend` | src/components/note-summarizer.tsx:92 | the filter preserves order: it distributes over concatenation |
| `NoteSummarizer.SummaryItems` | src/components/note-summarizer.tsx:87-95 | nothing is rendered for an empty summary; exactly one item per non-blank line, so never more items than lines |
| `NoteSummarizer.ItemsComeFromLines` | src/components/note-summarizer.tsx:90-94 | every item is the marker-free form of a non-blank line of the summary |
| `NoteSummarizer.LinesBecomeItems` | src/components/note-summarizer.tsx:90-94 | conversely, every non-blank line of the summary appears as an item, without its markers |
| `NoteSummarizer.ItemsInLineOrder` | src/components/note-summarizer.tsx:90-94 | items keep the order and repeats of the kept lines: item k is the marker-free form of the k-th non-blank line |
| `NoteSummarizer.ItemsAreSingleLines` | src/components/note-summarizer.tsx:90-91 | no item contains a line break |
| `NoteSummarizer.PlainSummaryRendersItsLines` | src/components/note-summarizer.tsx:90-94 | when every line is non-blank and marker-free, the items are exactly the lines, and joining them gives back the summary |
| `NoteSummarizer.SummaryPanel.constructor` | src/components/note-summarizer.tsx:30-31 | empty summary, not loading |
| `NoteSummarizer.SummaryPanel.BeginSubmit` | src/components/note-summarizer.tsx:41-42 | loading, summary cleared |
| `NoteSummarizer.SummaryPanel.FinishSubmit` | src/components/note-summarizer.tsx:43-51 | summary becomes the result on success, stays as it was on failure; loading ends |
| `NoteSummarizer.SummaryPanel.Submit` | src/components/note-summarizer.tsx:23-52 | accepted exactly when the notes have at least 50 characters; rejected changes nothing; accepted ends not loading, with the summary equal to the result or "" on failure |
| `TopicExplainer.ValidTopic` | src/components/topic-explainer.tsx:23-27 | the form schema: a topic of at least 3 characters |
| `TopicExplainer.Paragraphs` | src/components/topic-explainer.tsx:87-90 | nothing is rendered exactly when the explanation is empty |
| `TopicExplainer.ParagraphsRoundTrip` | src/components/topic-explainer.tsx:90 | joining the paragraphs with "\n\n" gives back the explanation exactly |
| `TopicExplainer.ParagraphsAvoidBreak` | src/components/topic-explainer.tsx:90 | no paragraph contains "\n\n" |
| `TopicExplainer.SingleParagraph` | src/components/topic-explainer.tsx:90 | a non-empty explanation without "\n\n" is one paragraph |
| `TopicExplainer.LeftmostBreaks` | src/components/topic-explainer.tsx:90 | matches are leftmost and non-overlapping: "\n\n\n" gives "" and "\n" |
| `TopicExplainer.ParagraphsLeftmost` | src/components/topic-explainer.tsx:90 | breaks are matched leftmost: every paragraph but the last is empty or does not end in a line break |
| `TopicExplainer.ExplanationPanel.constructor` | src/components/topic-explainer.tsx:30-31 | empty explanation, not loading |
| `TopicExplainer.ExplanationPanel.BeginSubmit` | src/components/topic-explainer.tsx:41-42 | loading, explanation cleared |
| `TopicExplainer.ExplanationPanel.FinishSubmit` | src/components/topic-explainer.tsx:43-51 | explanation becomes the result on success, stays as it was on failure; loading ends |
| `TopicExplainer.ExplanationPanel.Submit` | src/components/topic-explainer.tsx:23-52 | accepted exactly when the topic has at least 3 characters; rejected changes nothing; accepted ends not loading, with the explanation equal to the result or "" on failure |

Timestamps follow JavaScript truthiness. `!startTime` and `!endTime` treat a
missing value and the value 0 alike, so `Grading.Truthy` is "present and not
0", not just "present". Division is `Math.floor` of the millisecond difference.
Dafny's `/` with the positive divisor 1000 is the same floor, negative
differences included.

## Left out

- The language-model flows (`src/ai/flows/*.ts`) are not part of this model. Each call is an abstract outcome parameter. Nothing constrains a generated quiz: no fixed length, and no guarantee that `correctAnswer` is among the options. The flow's input has no question count, and its prompt asks for 15 questions.
- `Grading.ParseDuration` has no counterpart in the source. It is the reader that the duration rendering is proved against.
- Timestamps and seconds are unbounded integers. JavaScript numbers are IEEE doubles, so `Math.floor` of the quotient agrees with Dafny's `/` only while the millisecond difference divided by 1000 stays below about 2^43.
- Clocks are not modelled: `Date.now()` readings are parameters.
- Concurrency is not modelled: overlapping submissions, `async` suspension, the interleaving of renders with the pending call, and results arriving after unmount. Each `onSubmit` runs to completion as `BeginSubmit` then `FinishSubmit`.
- React memoisation and re-render timing are not modelled. Derived values are functions of the current state.
- The wiring between the two quiz components is not modelled. The generator passes `onCheckAnswers`, `onRetakeQuiz`, `showResults`, `selectedAnswers` and `setSelectedAnswers` (quiz-generator.tsx:178-184), but the display's props are `{quizData, startTime}`. So the generator's selections change only in `onSubmit` (emptied), `CheckAnswers` and `RetakeQuiz`.
- Console logging on failure is left out (I/O).
- `src/components/copy-button.tsx` is left out: clipboard API, toasts and timers. Only the text it is given is modelled.
- CSS class strings and icon components are left out. Option feedback is the three-way `Highlight` and `Icon` values.
- JSX layout, the Accordion, RadioGroup and Slider widgets, and the display-only components are left out.
- `src/ai/dev.ts` is left out: environment loading only.
- Zod and react-hook-form internals are left out. Only the resulting length and range checks remain. A number field that is not an integer is not modelled: the slider moves in steps of 1.
- String lengths count Dafny characters (Unicode scalar values). JavaScript counts UTF-16 code units, so the two differ for characters outside the Basic Multilingual Plane.
- The whitespace set of `trim()` is spelled out as ECMAScript's WhiteSpace and LineTerminator code points, as of the Unicode space separators listed in `Strings.IsJsWhitespace`.
