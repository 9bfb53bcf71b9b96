# Timed exam simulator: a Dafny model of its core

The application is a browser page for a timed multiple-choice exam. It
draws up to 42 questions from a nested question bank. The candidate
answers them one at a time under a countdown (two hours unless the `mins`
query parameter overrides it). When the candidate finishes, or time runs
out, the page scores the attempt and passes it if at least
⌈0.7 · total⌉ answers are correct. It keeps a five-column CSV report of
the attempt and offers a printable page. A second, nine-column CSV
builder (`buildCsvReport`) is defined in `app.js` but nothing in the page
calls it. The model covers it as a second, detailed report format.

This project models the logic of `app.js`:

- **Text.** Joining, the default string sort as insertion sort over a
  lexicographic order, ASCII case mapping, decimal rendering and `pad`.
- **Csv.** `csvEscape`, plus a reader for the CSV format of RFC 4180.
  The reader inverts the writers: every report the writers produce reads
  back as exactly its records.
- **Html.** `escapeHtml` and the two-entity escaping of the printable
  page's cells. A decoder for the five entities inverts both.
- **Bank.** `flattenBank` as a recursive walk; `shuffle` as Fisher–Yates
  on an array; `pickN`.
- **Questions.** Question records, the `answers[i] || []` and
  `numero || i+1` defaults, and `mapLettersToTexts`.
- **Scoring.** The counting loop and the pass rule of `finalize`.
- **Report.** `buildFriendlyRows`, `buildSimpleCsv` and the unused
  `buildCsvReport`.
- **Timer.** The arithmetic of `tick` and the ordering inside
  `startTimer`.
- **Session.** The global `EXAM` record as a class `Exam`. Its methods
  are the Start, Next and Finish handlers, the timer tick and
  `finalize`.

Inputs the page reads from its environment are parameters of the model:

- `Date.now()` is the parameter `now`.
- `Math.random()` is a supplied sequence `draws`. Step `i` of the shuffle
  uses `draws[i]`, which lies in `0..i`.
- The `mins` query parameter is `overrideMinutes`: `Some(m)` when
  `parseInt` yields a finite number.
- The question bank is `Option<Tree<Item>>`: `None` when `TODAS` is
  missing.
- The checked option inputs are the sequence `selected`.
- The confirmation dialog is the Boolean `confirmed`.

The source keeps no explicit phase. Which buttons the candidate can press
follows from which panel is visible. The model adds a field `phase`
(NotStarted, InProgress, Finished(reason)) for that panel. Each handler
requires the phase in which its button is on screen. The model also adds
a field `timerArmed`, which stands for a scheduled, not yet cleared
`EXAM.timerId`.

## Model

| member | source | states |
|---|---|---|
| Text.Join | app.js:37 | `join(sep)`: the parts in order with the separator between neighbours (its readback is Csv.EscapedLineTail and Csv.ReadEscapedLine) |
| Text.Sort | app.js:112 | the default `sort()` of a list of strings, by insertion; Text.SortFacts and Text.SortedUnique state what it returns |
| Text.LexLe | app.js:112 | the character-by-character order the default `sort()` compares strings by; Text.LexLeTotal, Text.LexLeAntisymmetric and Text.LexLeTransitive state that it is a total order |
| Text.LexLeTotal | app.js:30-31 | any two strings are ordered one way or the other by the order `sort()` uses |
| Text.LexLeAntisymmetric | app.js:30-31 | two strings each at most the other are equal |
| Text.LexLeTransitive | app.js:30-31 | the order of `sort()` is transitive |
| Text.InsertFacts | app.js:112 | inserting into a sorted list keeps it sorted and adds exactly that element |
| Text.SortFacts | app.js:112 | `sort()` returns a sorted permutation of its input, of the same length |
| Text.SortedUnique | app.js:192-194 | two sorted lists with the same elements, counted with multiplicity, are equal |
| Text.SortEqualIffSameMultiset | app.js:192-194 | two letter lists sort to the same list exactly when they hold the same letters, each as often |
| Text.SortOfSorted | app.js:193 | sorting an already sorted answer (as stored by Next) changes nothing |
| Text.Lower | app.js:225 | lower-casing keeps the length of a label |
| Text.Upper | app.js:29 | upper-casing keeps the length of a label |
| Text.LowerIdempotent | app.js:225-226 | lower-casing twice is lower-casing once |
| Text.NatToDecimal | app.js:11 | `String(n)` of a natural number is a non-empty string of digits with no leading zero |
| Text.IntToDecimal | app.js:255 | `String(qn)` of an integer: a minus sign before the digits of its magnitude when negative; Text.NatToDecimal and Text.DecimalRoundTrip state the digits |
| Text.DecimalRoundTrip | app.js:11 | the decimal text of `n` reads back as `n` |
| Text.DecimalLength | app.js:11 | the decimal text has one digit exactly below 10, two exactly from 10 to 99 |
| Text.Pad | app.js:11 | `String(n).padStart(2,'0')`; Text.PadFacts states its digits and value |
| Text.PadFacts | app.js:11 | `pad(n)` has at least two digits, exactly two below 100, and reads back as `n` |
| Csv.CellText | app.js:17 | `String(v ?? '')`: a missing value is the empty text, a number its decimal text; Csv.UnquoteEscape states that csvEscape keeps it |
| Csv.Doubled | app.js:17 | every double quote written twice; Csv.UndoubledDoubled and Csv.DoubledUndoubled state that undoubling inverts it |
| Csv.CsvEscape | app.js:17 | the escaped field always begins and ends with a double quote; Csv.UnquoteEscape and Csv.UnquoteOnlyEscaped show it is a lossless, injective encoding |
| Csv.UndoubledDoubled | app.js:17 | undoubling the quote-doubled text gives the text back |
| Csv.DoubledUndoubled | app.js:17 | a field body that undoubles to `s` is the doubling of `s` |
| Csv.UnquoteEscape | app.js:17 | the reader's unquoting of `csvEscape(v)` yields `String(v ?? '')` |
| Csv.UnquoteOnlyEscaped | app.js:17 | every field that unquotes to `s` is `csvEscape(s)`, so the escaping is injective |
| Csv.EscapedLine | app.js:253-255 | `map(csvEscape).join(',')` of a row; Csv.ReadEscapedLine states that it reads back as the row's texts |
| Csv.Document | app.js:257 | lines joined by CRLF; Csv.ReadDocument states that it reads back as the lines' records |
| Csv.Texts | app.js:37 | one text per cell |
| Csv.StrCells | app.js:253 | one cell per field |
| Csv.ReadQuoted | app.js:17 | reading a quoted field consumes input |
| Csv.ReadBare | app.js:37 | reading an unquoted field splits the input without losing any of it |
| Csv.ReadField | app.js:37 | reading a field never grows the input |
| Csv.ReadRecord | app.js:37 | reading a record never grows the input |
| Csv.ReadQuotedDoubled | app.js:17 | a quoted field reads back as its text, leaving the rest of the input |
| Csv.ReadFieldEscaped | app.js:17 | `csvEscape(v)` followed by a separator reads back as the text of `v` |
| Csv.ReadBareField | app.js:37 | an unquoted field without separators or quotes reads back unchanged |
| Csv.EscapedLineTail | app.js:37 | an escaped line is its first escaped field, a comma and the escaped rest |
| Csv.ReadEscapedLine | app.js:37 | a line of escaped fields joined by commas reads back as its fields |
| Csv.ReadBareLine | app.js:19-23 | a header of plain fields joined by commas reads back as its fields |
| Csv.ReadEncodedLine | app.js:37 | either kind of line reads back as its record |
| Csv.ReadDocument | app.js:37 | lines joined by CRLF read back as exactly their records, in order |
| Csv.ReadHeaderAndRecords | app.js:250-258 | a header line and record lines that each read back as their record give a document that reads back as exactly those records |
| Csv.EscapedLineOfTexts | app.js:36-37 | escaping numbers and strings is escaping their text |
| Html.EscapeChar | app.js:9 | the entity of one of `& < > " '`, else the character itself; Html.UnescapeChar states that it decodes back |
| Html.EscapeHtml | app.js:8-10 | no character of the escaped text is one of `< > " '`; for `&` see Html.EscapeHtmlAmpersands |
| Html.EscapeHtmlAmpersands | app.js:8-10 | every `&` in the escaped text begins one of the five entities, so no raw `&` is left |
| Html.UnescapeAmp | app.js:9 | `&amp;` decodes to `&` |
| Html.UnescapeLt | app.js:9 | `&lt;` decodes to `<` |
| Html.UnescapeGt | app.js:9 | `&gt;` decodes to `>` |
| Html.UnescapeQuot | app.js:9 | `&quot;` decodes to `"` |
| Html.UnescapeApos | app.js:9 | `&#39;` decodes to `'` |
| Html.UnescapePlain | app.js:8 | a character other than `&` decodes to itself |
| Html.UnescapeChar | app.js:8-10 | the escape of each character decodes to that character |
| Html.UnescapeEscapeHtml | app.js:8-10 | the escaped text decodes back to the original, so the escaping loses nothing |
| Html.ReplaceAll | app.js:291-293 | a global `replace` of one character; Html.ReplaceAllAppend states that it splits over concatenation |
| Html.ReplaceAllAppend | app.js:291 | a global replace distributes over concatenation |
| Html.PdfCell | app.js:291-293 | `replace(/&/g,'&amp;').replace(/</g,'&lt;')` of a printable cell; Html.PdfCellSafe states its result |
| Html.PdfCellPerChar | app.js:291-293 | the printable page's cell escaping works character by character |
| Html.PdfCellSafe | app.js:291-293 | a printable cell contains no raw `<`, and decodes back to the original text |
| Bank.Leaves | app.js:14 | the leaves of a bank, depth first and left to right; Bank.LeavesAreLeafBag and Bank.FlattenBank state what they hold |
| Bank.ConcatBag | app.js:14 | the elements of concatenated lists are the sum of the lists' elements |
| Bank.LeavesAreLeafBag | app.js:14 | the depth-first leaf list holds every leaf of the bank, each as often as it occurs |
| Bank.Walk | app.js:14 | the inner walk `w` appends the leaves of its argument, depth first, to `out` |
| Bank.FlattenBank | app.js:14 | `flattenBank` returns the leaves in depth-first order, each leaf exactly as often as it occurs |
| Bank.Swap | app.js:12 | a swap keeps the length |
| Bank.FisherYates | app.js:12 | the shuffle's steps keep the length |
| Bank.SwapPermutes | app.js:12 | a swap is a permutation |
| Bank.FisherYatesPermutes | app.js:12 | the shuffle's steps from `i` down to 1 permute the input |
| Bank.Shuffle | app.js:12 | `shuffle` copies the array and runs Fisher–Yates on the copy; the result is a permutation of the input |
| Bank.PickN | app.js:13 | `pickN(arr, n)` returns as many elements as the smaller of `n` and the length of `arr`, drawn from `arr` without repetition; all of them when `n` is at least that length |
| Bank.PickNDistinct | app.js:13 | from a bank of distinct questions, the drawn questions are distinct |
| Bank.RepeatedMultiplicity | app.js:13 | an element at two positions occurs at least twice |
| Bank.MultiplicityOfDistinct | app.js:13 | in a list of distinct elements every value occurs at most once |
| Questions.AnswerAt | app.js:31 | the `[]` default of `answers[i]`: an unset or missing slot reads as no letters |
| Questions.RowNumber | app.js:239 | the `(i+1)` default of `it.numero`: the record's own number unless it is absent or zero; Report.FriendlyRowFacts states both cases |
| Questions.LabelDict | app.js:225 | the `Map` from lower-cased labels to texts, a later option replacing an earlier one with the same key |
| Questions.LookupText | app.js:226 | the dictionary lookup of the lower-cased letter, defaulting to the empty text; Questions.LookupTextNoMatch and Questions.LookupTextLastMatch state what it finds |
| Questions.SortedComparisonIsSameLetters | app.js:192-194 | comparing the sorted key with the sorted answer is "same letters, each as often, in any order" |
| Questions.UnsetNeverMatches | app.js:193 | an unanswered question never counts as correct when it has a key |
| Questions.MapLettersToTexts | app.js:224-227 | at most one text per letter, and no empty text survives the `filter(Boolean)` |
| Questions.LookupTextNoMatch | app.js:225-226 | a letter no label matches, ignoring case, yields the empty text |
| Questions.LookupTextLastMatch | app.js:225-226 | a letter yields the text of the last option whose label matches it, ignoring case |
| Questions.MapLettersIgnoresCase | app.js:225-226 | the case of the given letters does not matter |
| Questions.MapLettersKeepsOrder | app.js:226 | when every letter has a text, the texts come in the letters' order and none is dropped |
| Questions.MapLettersAppend | app.js:224-227 | the texts of two letter lists joined are the two lists of texts joined |
| Questions.MapOneLetter | app.js:226 | a single letter gives its text, or nothing when that text is empty |
| Questions.MapLettersAt | app.js:224-227 | each letter's text, when it has one, sits between the texts of the letters before it and those after it |
| Questions.MapLettersDropsUnmatched | app.js:225-226 | a letter that no label matches contributes nothing, and the other letters' texts keep their order |
| Scoring.Required | app.js:199 | `Math.ceil(0.7 * total)` in exact arithmetic; Scoring.RequiredIsCeiling states that it is that ceiling |
| Scoring.ScoreOf | app.js:189-200 | the correct count, the total, the required count and the pass flag finalize derives; Scoring.ScoreAttempt computes it |
| Scoring.RequiredIsCeiling | app.js:199 | the required count is the least integer at least 0.7 times the total |
| Scoring.CountCorrect | app.js:190-195 | the count of correct answers never exceeds the number of questions |
| Scoring.ScoreAttempt | app.js:189-200 | the scoring loop yields the correct count, the total, the required count ⌈0.7·total⌉ and `passed` exactly when correct ≥ required |
| Scoring.CountIsSameLetterItems | app.js:190-195 | the count is the number of questions whose answer holds the key's letters, each as often |
| Scoring.ScoreIgnoresLetterOrder | app.js:192-194 | reordering the letters of any answer does not change the count |
| Scoring.AllCorrectCount | app.js:190-195 | when every answer matches its key, every question counts |
| Scoring.AllCorrectPasses | app.js:189-200 | an attempt with every answer right passes |
| Scoring.PassThresholdExamples | app.js:199 | 7 of 10 passes and 6 of 10 fails; 42 questions need 30 |
| Report.FriendlyRowAt | app.js:231-244 | the row buildFriendlyRows pushes for question `i`; Report.FriendlyRowFacts states its fields |
| Report.BuildFriendlyRows | app.js:229-247 | one row per question, in question order, each derived from that question and its answer |
| Report.FriendlyRowFacts | app.js:232-243 | "Correcta" exactly when the answer holds the key's letters; the number is the record's own when present and non-zero, else the position plus one; an unanswered question shows no user text and, with a key, "Incorrecta" |
| Report.SimpleHeader | app.js:252 | the five column titles of the simple report; Report.SimpleCsvReads states that the report reads back starting with them |
| Report.SimpleCells | app.js:255 | the five cells of a row: number, question, answer text, key text, status; Report.SimpleLineEncodes states how they read back |
| Report.SimpleRecord | app.js:255 | the `String(v ?? '')` texts of a row's five cells; Report.SimpleLineEncodes and Report.SimpleCsvReads state that the report reads back as them |
| Report.SimpleLine | app.js:255 | `[r.num, …].map(csvEscape).join(',')` for row `i`; Report.SimpleLineEncodes states that it reads back as its record |
| Report.SimpleLines | app.js:253-256 | the escaped header line, then one line per row; Report.SimpleCsvReads states that, joined, they read back as header and records |
| Report.SimpleCsvText | app.js:250-258 | the text of the simple report; Report.SimpleCsvReads states its records and Report.BuildSimpleCsv builds it |
| Report.SimpleLineEncodes | app.js:252-256 | each record line of the simple report reads back as its five-field record |
| Report.SimpleCsvReads | app.js:250-258 | the simple CSV reads back as its header and one five-field record per question |
| Report.BuildSimpleCsv | app.js:250-258 | `buildSimpleCsv` produces that text, which reads back as the header and one record per row |
| Report.OptionsText | app.js:29 | the "Opciones" cell: each option as its upper-cased label, ": " and its text, joined by a vertical-bar separator |
| Report.KeyChoices | app.js:33 | `filter(o => correctas.includes(o.label))`; Report.KeyChoicesFacts states what it keeps |
| Report.ExpandedText | app.js:33 | the expanded-answer cell: each kept option as its upper-cased label, ". " and its text, joined by a vertical-bar separator |
| Report.DetailedCells | app.js:26-35 | the nine cells of record `i` of the detailed report; Report.DetailedRecordFacts states them |
| Report.KeyChoicesFacts | app.js:33 | the filter keeps exactly the options whose label is one of the given letters |
| Report.ExpandedAnswerNamesKey | app.js:30-33 | filtering by the sorted key keeps exactly the options whose label is one of the key's letters |
| Report.DetailedHeaderBare | app.js:19-23 | the detailed header's fields need no quoting |
| Report.DetailedHeader | app.js:19-23 | the nine column titles of the detailed report; Report.DetailedHeaderBare states that none needs quoting |
| Report.DetailedRecord | app.js:35 | the texts of the nine cells of record `i`; Report.DetailedRecordFacts states them and Report.DetailedLineEncodes that the line reads back as them |
| Report.DetailedLine | app.js:35-37 | record `i` escaped cell by cell and joined by commas; Report.DetailedLineEncodes states that it reads back as its record |
| Report.DetailedLines | app.js:24-37 | the bare header line, then one escaped line per item; Report.DetailedCsvReads states that, joined, they read back as header and records |
| Report.DetailedCsvText | app.js:18-37 | the text of the detailed report; Report.DetailedCsvReads states its records and Report.BuildCsvReport builds it |
| Report.DetailedLineEncodes | app.js:26-37 | each record line of the detailed report reads back as its nine-field record |
| Report.DetailedCsvReads | app.js:18-38 | the detailed CSV reads back as its header and one nine-field record per question |
| Report.BuildCsvReport | app.js:18-38 | `buildCsvReport` produces that text, which reads back as the header and one record per question |
| Report.DetailedRecordFacts | app.js:26-36 | nine fields; "Multiple" exactly when the key has several letters; the status, number and question agree with the simple report |
| Report.ScoreAgreesWithReports | app.js:190-195 | the score counts exactly the rows both reports mark "Correcta" |
| Report.PrintableRowMatchesCsv | app.js:289-293 | the printable page's cells decode to the texts of the simple CSV's record |
| Report.SimpleCsvExample | app.js:229-258 | one correctly answered question gives the record "1","Q1","X","X","Correcta" after the header |
| Timer.DefaultDurationMs | app.js:4 | two hours in milliseconds, the duration without a `mins` override (Timer.Duration) |
| Timer.WarningMs | app.js:167 | five minutes in milliseconds, below which Timer.TickView sets the warning |
| Timer.Duration | app.js:98 | `mins` minutes in milliseconds when it parsed, else two hours (app.js:4) |
| Timer.Remaining | app.js:163 | `Math.max(EXAM.deadline - Date.now(), 0)`; Timer.TickView states it |
| Timer.ClockDecomposition | app.js:164 | hours, minutes and seconds of a tick make up the whole seconds left |
| Timer.TickView | app.js:163-167 | the time left is the time to the deadline once it is positive, else zero; the warning shows below five minutes; the exam ends exactly when the deadline is reached |
| Timer.TickClockParts | app.js:164 | minutes and seconds are below 60, and hours, minutes and seconds add up to the whole seconds left |
| Timer.ClockText | app.js:165 | below 100 hours the clock reads `hh:mm:ss`, each part reading back as its number |
| Timer.StartTimerAsWritten | app.js:158-161 | as written, the first tick finalizes exactly when the deadline is not in the future, and a periodic tick is scheduled in every case |
| Timer.StartClickAsWritten | app.js:101-105 | as written, the Start click finalizes once exactly when the deadline is not in the future, leaves a tick scheduled, and shows the exam panel in every case |
| Timer.LaterTick | app.js:163-173 | a scheduled tick that finds no time left finalizes once more, clears the timer and shows the results; without a scheduled tick nothing changes |
| Timer.ExpiredStartFinalizesTwice | app.js:101-173 | as written, an expired start shows question 1 after finalizing, and the next tick finalizes a second time before the timer stops |
| Timer.StartTimer | app.js:158-173 | corrected: a tick stays scheduled exactly when the first tick did not finish the exam |
| Timer.StartClick | app.js:101-105 | corrected: an expired start finalizes once and shows the results; otherwise the exam panel is shown and a tick is scheduled |
| Timer.ExpiredStartFinalizesOnce | app.js:101-173 | corrected: after an expired start the results stay on screen and no later tick finalizes again |
| Session.QuestionCount | app.js:91 | 42 questions per attempt; Session.Exam.Start draws `PickN` of that many |
| Session.BankOrEmpty | app.js:88 | the `[]` default of `BANK`: a missing bank flattens to no questions |
| Session.AnsweredInOrder | app.js:108-115 | answers fill in order, each a non-empty sorted list of letters, and the slots from the current one on are unset while the exam runs |
| Session.Outcome | app.js:189-216 | a finished exam holds the score and the simple CSV of its final answers; an unfinished one neither |
| Session.Exam.Valid | app.js:41-44 | the invariant of the `EXAM` record that every handler keeps, with a tick scheduled exactly while the exam runs as the corrected startTimer ensures |
| Session.Exam.constructor | app.js:41-44 | the initial record: no items, no answers, index 0, deadline 0, no timer, no report |
| Session.Exam.Finalize | app.js:172-216 | clears the timer, records the score and the simple CSV of the current answers, switches to the results, and leaves items, answers and index alone |
| Session.Exam.Start | app.js:87-106 | an empty bank changes nothing; otherwise pickN's questions, all slots unset, index 0, deadline now + duration, and the exam finished at once when that deadline is not in the future. It follows the corrected startTimer (Timer.StartTimer): an expired start ends on the results with no tick scheduled, where the source shows question 1 again and finalizes a second time (Timer.StartClickAsWritten) |
| Session.Exam.Next | app.js:108-115 | an empty selection changes nothing; otherwise the sorted selection fills the current slot, then the index advances or, on the last question, the exam finishes |
| Session.Exam.Finish | app.js:117-120 | on confirmation the exam finishes with the answers given so far; otherwise nothing changes |
| Session.Exam.Tick | app.js:162-168 | the tick's view of the remaining time, and the exam finishes by time exactly when the deadline has been reached |

The class methods share the invariant `Session.Exam.Valid`. There is one
answer slot per question. A tick is scheduled exactly while the exam runs;
this holds for the corrected startTimer that the class follows, not for
the one in `app.js` (see "## Findings").
`Session.AnsweredInOrder` says that answers fill in order, that each
recorded answer is a non-empty sorted list of letters, and that the slots
from the current one on are unset while the exam runs.
`Session.Outcome` says that a finished exam holds the score and the simple
CSV of its final answers, and an unfinished one holds neither.

## Left out

- The DOM: panels, the question page of `renderQuestion`, the progress bar, alerts, the confirm dialog. The model keeps only what these decide.
- renderQuestion's own shuffle of the options (app.js:148): it only changes the order on screen.
- The camera, screen recording, the CSV download and the print window (app.js:56-85, 124-139, 261-307): browser media and file I/O.
- The grade `(correct/total)*20` and the `toFixed(2)` text: floating point. The model keeps the integer counts it is computed from.
- Scoring.Required: `Math.ceil(0.7 * total)` is taken as the exact ceiling of 7/10 of the total. It gives the same value as the double arithmetic for any realistic number of questions, but the model does not prove that.
- Session.Exam.Start: the class follows the corrected startTimer (Timer.StartTimer), so an expired start leaves the results on screen and no tick scheduled; the as-written behaviour, question 1 shown again and a second finalize one second later, is modelled only as Timer.StartClickAsWritten, Timer.LaterTick and Timer.ExpiredStartFinalizesTwice. `Date.now()` is read once, and the first tick sees the same time as the deadline computation. `URLSearchParams` and `parseInt` are replaced by the parsed value `overrideMinutes`.
- `location.reload()` on Restart (app.js:122): it discards the whole state.
- Timer.StartClickAsWritten: the buttons a candidate could press during the second in which an already finished exam shows question 1 are not modelled.
- The `try/catch` around the CSV build in finalize: the modelled builder cannot fail. A `null` item, a non-string label or number, and the `String(undefined)` spelling of a missing value are outside the data model. Missing fields are empty strings or lists, as the `|| ''` and `|| []` defaults read them.
- Text.Sort compares characters as whole code points. JavaScript's default sort compares UTF-16 code units, which differ only outside the Basic Multilingual Plane.
- Text.Lower and Text.Upper map ASCII letters only. JavaScript's `toLowerCase` and `toUpperCase` also map other alphabets.

## Findings

| source | as written | input that shows it | evidently intended | confidence | as-written member | corrected member |
|---|---|---|---|---|---|---|
| app.js:101-173 | `startTimer` runs the first `tick()` before `setInterval`. When that tick finalizes, `clearInterval` runs before any timer exists, and the interval created afterwards stays scheduled. The Start handler then hides the results and shows the exam panel with question 1 (lines 102-105). One second later the tick calls `finalize('time')` a second time, whose `clearInterval` (line 173) finally stops the timer. | `?mins=0` (or a negative `mins`): deadline = now | an exam that ends during the first tick is finalized once and its results stay on screen | not executed | Timer.StartTimerAsWritten, Timer.StartClickAsWritten, Timer.ExpiredStartFinalizesTwice | Timer.StartTimer, Timer.StartClick, Timer.ExpiredStartFinalizesOnce, Session.Exam.Start, Session.Exam.Valid |
