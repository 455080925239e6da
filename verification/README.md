# online_quiz: the event-log core in Dafny

`online_quiz.py` runs a quiz over HTTP. Its only store is an append-only CSV
log of rows: START_QUIZ, PARTICIPANT, ANSWER, STATUS, CHECK and CHECKER.
Every page re-reads the whole log and folds it into the state it needs.

This project models that core as pure functions over a `seq<Row>`:

- the single-purpose readers (`read_answers`, `read_status`, `get_quiz_details`, …);
- the full replay `read_results_from_logfile`;
- the aggregation and ranking in `read_results`;
- the verdict tallies of `read_checks` / `make_check_counts`;
- the peer-check assignment loop of `open_checking`;
- the rows `enter_answers`, `examine_results`, `check_answers`, `open_checking` and `open_answering` append;
- the plain-text sheet `make_quiz_result_text`.

Wherever the program lets an exception escape to its error page, the model returns an explicit `Failure`.

Modules, one file each:

| module | file | what it holds |
|---|---|---|
| `Wrappers` | wrappers.dfy | `Option` and `Result` |
| `Text` | text.dfy | `str.strip`, `str(i)`, `rjust`, the file-name stem, code-point string order |
| `LastWins` | lastwins.dfy | the last-write-wins folds every reader is built from |
| `EventLog` | eventlog.dfy | the row layouts, the status constants, the failure causes |
| `Sets` | sets.dfy | distinctness and cardinality facts |
| `Readers` | readers.dfy | the small log readers |
| `Checks` | checks.dfy | the verdict table and the per-question "c/t" tallies |
| `Replay` | replay.dfy | `read_results_from_logfile` |
| `Ranking` | ranking.dfy | answers given, correct answers, solos, the sort |
| `Assignment` | assignment.dfy | the CHECKER rows of `open_checking` |
| `Requests` | requests.dfy | the append decisions of the request handlers |
| `Report` | report.dfy | `make_quiz_result_text` |

Behaviour kept as the code has it:

- The sort key is `(-correct, checked, -given, name)`. It has no solo count.
- `open_checking` selects the participants whose status is exactly "finished". There are no elapsed-time suffixes on statuses.
- A CHECKER row stores the checker's name as it is when the row is replayed. The name is not re-resolved afterwards.
- A row naming a participant who never joined is not skipped. `read_results_from_logfile` raises KeyError on it, so the model returns `UnknownParticipant`.
- `open_checking` visits the finished participants in ranked order before shuffling.

## Model

| member | source | states |
|---|---|---|
| Text.Strip | online_quiz.py:125 | the result is a slice of the input with only whitespace cut from either end, has no whitespace at either end, and is empty exactly when the input is all whitespace |
| Text.StripIdempotent | online_quiz.py:540-543 | stripping a verdict that was stored stripped changes nothing, so a stored verdict reads back unchanged |
| Text.ParseNatToStr | online_quiz.py:119 | `str(i)` of a question number parses back to that number |
| Text.NatToStrInjective | online_quiz.py:119 | distinct question numbers have distinct keys |
| Text.NatToStr | online_quiz.py:119 | `str(i)` is a non-empty run of decimal digits with no leading zero, except for zero itself |
| Text.RJust | online_quiz.py:299 | `rjust` pads on the left with blanks to the width, never cuts, and keeps the text as the suffix |
| Text.FileStem | online_quiz.py:308 | the stem has the name's length; a blank becomes an underscore, an upper-case ASCII letter becomes its lower-case letter, and every other character is kept; so there is an underscore exactly where the name has a blank or underscore |
| Text.TrailingNewlineIsNumeric | online_quiz.py:480 | the question-number pattern also accepts a digit string followed by one newline, which is not all digits |
| Text.LexLessIrreflexive | online_quiz.py:256 | no name sorts before itself under Python's string order |
| Text.LexLessTransitive | online_quiz.py:256 | Python's string order on names is transitive |
| Text.LexLessTotal | online_quiz.py:256 | of two different names, one sorts before the other |
| EventLog.QuestionKeysCount | online_quiz.py:119 | the seeded question keys are exactly n strings, each the decimal text of a number 1..n that parses back to it |
| Readers.ReadAnswers | online_quiz.py:118-129 | the keys are the questions 1..n plus every question a matching ANSWER row names; each holds the stripped text of its last matching row; unwritten questions read "" |
| Readers.ReadAnswersNoIp | online_quiz.py:132-143 | as `read_answers`, but rows from any address count |
| Readers.AnswerIsReadBack | online_quiz.py:118-129 | a matching ANSWER row appended to any log is what is read back for its question |
| Readers.LaterAnswerIsReadBack | online_quiz.py:118-129 | an appended ANSWER row that no later appended row overrides is read back, whatever came before |
| Readers.ReadStatus | online_quiz.py:260-268 | the status of the last STATUS row for this quiz, address and participant, or "" when there is none |
| Readers.StatusIsReadBack | online_quiz.py:260-268 | an appended STATUS row is the status read back |
| Readers.GetQuizDetails | online_quiz.py:312-325 | name and question count of the last START_QUIZ row of the quiz; an unknown quiz, or one whose last start row has no name, is `UnknownQuiz` |
| Readers.IsQuizHost | online_quiz.py:353-363 | true exactly when id and address match the host of the last START_QUIZ row; with no such row, only for the empty id and address |
| Readers.HostIsExactlyTheStarter | online_quiz.py:353-363 | after a START_QUIZ row, the host is exactly the id and address it names |
| Readers.GetParticipantDetails | online_quiz.py:328-335 | the name of the last PARTICIPANT row of the id in any quiz, or "" |
| Readers.AnsweringStarted | online_quiz.py:338-350 | true exactly when some row of the quiz is an ANSWER row or a STATUS row "started" |
| Readers.GetCheckeeId | online_quiz.py:366-374 | the checkee of the last CHECKER row for this checker in the quiz, or "" |
| Readers.GetCurrentQuizId | online_quiz.py:63-82 | the quiz of the last START_QUIZ/END_QUIZ marker when that marker is a START_QUIZ row, and none otherwise |
| Checks.CheckTablePerCheckee | online_quiz.py:159-174 | the nested fold holds the requested checkee plus exactly the checkees of CHECK rows of the quiz; each entry is that checkee's own last-write-wins verdicts over blank questions 1..n |
| Checks.LaterVerdictIsReadBack | online_quiz.py:166-172 | an appended CHECK row that no later appended row overrides is the stripped verdict read back for its checkee |
| Checks.Tallies | online_quiz.py:146-156 | one tally per question 1..n and no other key; each reads c/t with c <= t <= the number of checkees, and t is 0 exactly when no checkee has a non-blank verdict on that question |
| Checks.MakeCheckCounts | online_quiz.py:146-156 | the loop succeeds exactly when every non-blank verdict is on a question 1..n; each tally then counts the checkees with a "correct" verdict over those with a non-blank one |
| Checks.AddVerdicts | online_quiz.py:148-155 | one checkee's pass adds its own non-blank verdicts to the counters, and fails on a verdict outside 1..n |
| Checks.ReadChecks | online_quiz.py:159-177 | fails (KeyError) exactly when a verdict is uncountable; otherwise gives the requested checkee's verdicts, and tallies that are those of the folded verdict table: keyed 1..n, each with c <= t <= the number of checkees |
| Checks.MaxTallyWidth | online_quiz.py:271-276 | the width is at least every tally's length and equal to one of them, or 0 with no questions |
| Checks.FindMaxLenCheckCounts | online_quiz.py:271-276 | the width bounds every tally text and is attained by one, or is 0 for no tallies |
| Replay.Step | online_quiz.py:190-222 | a row succeeds exactly when every participant it updates has joined, and fails naming one who has not; only PARTICIPANT rows add participants; well-formedness and stripped storage are kept; a CHECKER row records the checker's current name on the checkee; a START_QUIZ row sets the quiz name and the first eight characters of its time stamp as the date, and no other row touches either |
| Replay.ReadResultsFromLog | online_quiz.py:180-224 | a successful replay lists every participant exactly once and stores answers and verdicts stripped; a failure is always an unknown participant |
| Replay.ReplayHeader | online_quiz.py:191-193 | the replayed quiz name and date are the name and the first eight characters of the time stamp of the quiz's last START_QUIZ row, or both empty when there is none |
| Replay.ReplayNameIsQuizName | online_quiz.py:191-192 | the replayed quiz name is the name `get_quiz_details` reports (lines 318-319) |
| Replay.ReplayAgreesWithReaders | online_quiz.py:180-224 | for every id, the replayed record equals the single-purpose readers' folds without their blank seed: the answers of `read_answers_no_ip` and the verdicts of `read_checks` overlaid on an empty map rather than on the blank answers 1..n, so only questions that have rows appear; also the last status and the last name |
| Replay.ReplayOkIff | online_quiz.py:180-224 | the replay succeeds exactly when no row of the quiz names a participant before that participant's PARTICIPANT row |
| Replay.RenameChangesOnlyName | online_quiz.py:194-201 | a PARTICIPANT row for a known id changes only that id's name: same order, same ids, every other field equal |
| Replay.RenameKeepsScores | online_quiz.py:194-201 | inserting such a rename anywhere in the log leaves success, order, answers, verdicts and statuses of the replay unchanged |
| Ranking.AnswersGiven | online_quiz.py:227-234 | at most the number of stored answers, and 0 exactly when every answer is blank once stripped |
| Ranking.AnswersGivenStripped | online_quiz.py:227-234 | on replayed (stripped) answers, the count is the number of non-empty answers |
| Ranking.CorrectAnswers | online_quiz.py:239-247 | at most `answers_checked`, and 0 exactly when no verdict reads "correct" |
| Ranking.SoloIff | online_quiz.py:237-249 | q is a solo of p exactly when p's verdict on q is "correct" and no other participant's is |
| Ranking.SolosBounds | online_quiz.py:237-249 | the number of solos is at most `correct_answers`, which is at most `answers_checked` |
| Ranking.SolosDisjoint | online_quiz.py:237-249 | no question is a solo of two participants |
| Ranking.BeforeIrreflexive | online_quiz.py:256 | no key sorts before itself |
| Ranking.BeforeTransitive | online_quiz.py:256 | the key order is transitive |
| Ranking.BeforeTotal | online_quiz.py:256 | any two different keys are ordered one way or the other |
| Ranking.SortBy | online_quiz.py:256 | the sort returns a permutation of its input, ordered by the key |
| Ranking.SortStable | online_quiz.py:256 | the sort is stable: participants with equal keys keep their relative order |
| Ranking.ReadResults | online_quiz.py:252-257 | succeeds exactly when the replay does, with the same error otherwise; the ranking is a duplicate-free permutation of the participants, ascending by `(-correct, checked, -given, name)` |
| Ranking.ReadResultsStable | online_quiz.py:256 | ties in the ranking keep joining order |
| Assignment.FinishedIds | online_quiz.py:575-578 | exactly the listed participants whose status is "finished", no longer than the list, and duplicate-free when the list is |
| Assignment.CheckerRows | online_quiz.py:580-583 | row i makes id i the checker of id i-1, where index -1 is the last id; with distinct ids every id checks someone and is checked by exactly one row, and with two or more ids nobody checks themself |
| Assignment.PrevIsModular | online_quiz.py:582 | Python's `L[i-1]` is index `(i - 1) mod k` |
| Assignment.LoneCheckerChecksThemself | online_quiz.py:580-583 | with one finished participant, that participant checks themself |
| Assignment.AssignedCheckeeIsRead | online_quiz.py:366-374 | after the rows are appended, `get_checkee_id` gives every checker the id before it in the shuffled list |
| Assignment.PairsOfReordering | online_quiz.py:579-583 | for any reordering of distinct ids, the rows pair the ids one to one, and with two or more ids nobody is paired with themself |
| Requests.LifecycleOfOptionalStatus | online_quiz.py:470-472 | a request writing at most one advancing STATUS row, then no STATUS rows, follows the status life cycle |
| Requests.DigitsAreIntLiteral | online_quiz.py:475 | `int(page_nbr)` accepts every non-empty string of ASCII digits and rejects the empty string |
| Requests.AnswerRows | online_quiz.py:477-484 | every written row is an ANSWER of a numeric field with its unstripped value, and with distinct fields no question is written twice |
| Requests.AnswerRowsExactly | online_quiz.py:477-484 | a field is written exactly when it is numeric, already a key of the answers, and differs from the stored answer |
| Requests.EnterAnswers | online_quiz.py:454-490 | every STATUS row moves its participant one step along waiting, started, finished; nothing is written for an unknown quiz, a missing quiz or participant id, or before answering is open unless by the host; ANSWER rows carry the sender's id, address and quiz and a numeric field's value, each question at most once. Which questions must be written is the `Requests.EnterAnswersExactly` row |
| Requests.AnsweringBody | online_quiz.py:468-486 | past the wait gate, the status advances by one step and each ANSWER row carries a numeric form field's value, each question at most once. Which questions must be written is the `Requests.AnsweringBodyExactly` row |
| Requests.EnterAnswersExactly | online_quiz.py:455-484 | with distinct field names, an ANSWER to question k is written exactly when the submission passes every gate and k is a numeric field that is already a key of `read_answers` and differs from it. The gates are: quiz, page and participant fields present, quiz known, answering begun or sender is host, status waiting or started, page number an integer |
| Requests.AnsweringBodyExactly | online_quiz.py:468-484 | past the wait page, an ANSWER to k is written exactly when the status is waiting or started, the page number parses, and k is a numeric field that is a key of the answers read before the STATUS row and differs from it |
| Requests.WriteAnswersExactly | online_quiz.py:477-484 | after the optional STATUS row, an ANSWER to k is written exactly when k is a numeric field, already a key of the stored answers, and changed |
| Requests.EnteredAnswersReadBack | online_quiz.py:477-484 | after `enter_answers`, `read_answers` gives every question it wrote the stripped submitted text |
| Requests.ExamineResults | online_quiz.py:493-516 | at most one row is written: a STATUS "finished", written exactly when the quiz is known and the sender's status is "started" |
| Requests.CheckRows | online_quiz.py:539-544 | nothing is written when checker and checkee coincide; each row is a CHECK of a numeric field with its stripped value, each question at most once |
| Requests.CheckRowsExactly | online_quiz.py:539-544 | a field is written exactly when checker and checkee differ, the field is numeric, is a key of the stored verdicts, and differs from it once stripped |
| Requests.CheckAnswers | online_quiz.py:519-550 | every STATUS row moves its participant one step along the life cycle; nothing at all is written when checking oneself, for an unknown quiz or a missing field; every CHECK row is for the quiz, names the sender as checker and the requested checkee, and carries a stripped numeric field value, each question at most once. Which questions must be written is the `Requests.CheckAnswersExactly` row |
| Requests.CheckingBody | online_quiz.py:533-546 | past the form checks, the status advances by one step, nothing is written when the checker is the checkee, and each CHECK row carries a stripped numeric field value, each question at most once. Which questions must be written is the `Requests.CheckingBodyExactly` row |
| Requests.CheckAnswersExactly | online_quiz.py:520-544 | with distinct field names, a CHECK of question k is written exactly when the four fields are present, checker and checkee differ, the quiz is known, and the checkee's verdicts read after the STATUS row count. k must also be a numeric field that is one of those verdicts and differs from it once stripped |
| Requests.CheckingBodyExactly | online_quiz.py:533-544 | past the quiz lookup, a CHECK of k is written exactly when checker and checkee differ, the verdicts read after the STATUS row count, and k is a numeric field that is a key of them and changed once stripped |
| Requests.WriteChecksExactly | online_quiz.py:539-544 | after the optional STATUS row, a CHECK of k is written exactly when checker and checkee differ and k is a numeric field, a key of the stored verdicts, and changed once stripped |
| Requests.EnteredChecksReadBack | online_quiz.py:539-546 | after `check_answers`, `read_checks` folds for the checkee, on every question written, the stripped submitted verdict |
| Requests.OpenChecking | online_quiz.py:566-587 | only CHECKER and STATUS rows are written, the statuses follow the life cycle, and CHECKER rows only for the host |
| Requests.OpenCheckingAssignsOthers | online_quiz.py:573-583 | when the host opens checking, the CHECKER rows pair the finished participants one to one, nobody with themself once there are two |
| Requests.OpenCheckingStartsWithPairs | online_quiz.py:580-584 | the appended rows begin with the CHECKER rows of the shuffled finished list, before what `examine_results` appends |
| Requests.OpenAnswering | online_quiz.py:590-602 | a row is written exactly when the sender is the host: one empty ANSWER to question "1" |
| Requests.OpenAnsweringStartsAnswering | online_quiz.py:590-602 | after it, `answering_started` holds for the quiz |
| Report.IndexOf | online_quiz.py:286 | the rank is the first position of the participant in the ranking |
| Report.Glyph | online_quiz.py:300-303 | "+" exactly for a "correct" verdict, "-" exactly for "wrong", "?" otherwise |
| Report.SoloColumn | online_quiz.py:296-298 | "SOLO " exactly on a solo question, five blanks on the others, nothing when there are no solos |
| Report.LineLayout | online_quiz.py:294-307 | every question line is its solo column, its tally right-justified to the common width, a blank, the glyph at one fixed column, a blank, the number right-justified in the width of n, ". ", the stored answer and a newline |
| Report.NumberReadsBack | online_quiz.py:304 | the number read from the number column of line i is i |
| Report.QuestionLines | online_quiz.py:294-307 | exactly n lines; when every tally fits the width, line k is question k+1 in the common layout, and its number reads back as k+1 |
| Report.LinesLayout | online_quiz.py:294-307 | any list of the n question lines, in order, shares the layout and each line numbers its own question |
| Report.MakeQuizResultText | online_quiz.py:279-309 | fails in the program's order: unknown quiz, uncountable verdict, unknown participant in the replay, participant not ranked, zero questions; otherwise succeeds with a sheet giving the replay's quiz name and date, the participant and question counts, the name, the 1-based first position in the ranking, the "correct" count, the solo count, n lines in the common layout with the widest tally setting the width, and the lowered file stem |
| Report.Compose | online_quiz.py:283-308 | the sheet of a ranked participant has the header fields of the replay, rank and score as above, and every question line laid out in order |
| Report.TextLayout | online_quiz.py:283-309 | the returned text is the header followed by the lines in order, line k right after the header and the lines before it |

Members without a row are helpers. A listed row states what each means:

- `Text.ParseNat`, `Text.ConcatAppend`: used by `Text.ParseNatToStr` and `Report.TextLayout`.
- `EventLog.Seed`: its keys are counted by `EventLog.QuestionKeysCount`.
- `Checks.CheckTable`: stated by `Checks.CheckTablePerCheckee`.
- `Ranking.Solos`, `Ranking.CorrectOn`, `Ranking.AnswersChecked`: stated by `Ranking.SoloIff`, `Ranking.SolosBounds` and `Ranking.CorrectAnswers`.
- `Text.LexLess`: its order facts are the three `Text.LexLess…` rows.
- `Text.IsNumericKey`: what it lets through is stated by `Requests.AnswerRowsExactly`, `Requests.CheckRowsExactly` and `Text.TrailingNewlineIsNumeric`.
- `Requests.IntLiteral`: stated by `Requests.DigitsAreIntLiteral`.
- `Report.Header`, `Report.TextOf`: stated by `Report.TextLayout`.
- `Report.QuestionLine`, `Report.Line`, `Report.Columns`, `Report.NumberField`, `Report.AllLaidOut`, `Report.LaidOut`: stated by `Report.LineLayout` and `Report.NumberReadsBack`.
- `Assignment.CyclicIsBijection`, `Report.Describes`: their content is spelled out in the `Assignment.CheckerRows` and `Report.MakeQuizResultText` rows.
- `Requests.WriteAnswers`, `Requests.WriteChecks`: the writing branches of `Requests.AnsweringBody` and `Requests.CheckingBody`, stated by those rows and by `Requests.WriteAnswersExactly` / `Requests.WriteChecksExactly`.
- `Requests.ChangesAnswer`, `Requests.ChangesVerdict`, `Requests.AnswerWritten`, `Requests.VerdictWritten`, `Requests.CheckingBegun`, `Requests.Asks`: the conditions, the STATUS row and the row search of the `…Exactly` rows.
- `LastWins.Overlaid`: the four ensures of `LastWins.Overlay`, stated together.
- The remaining lemmas without a row are steps of the proofs above. Examples are `Report.Layout`, `Report.ColumnsNumber`, `Report.FieldReadsBack` and `Requests.ConsQuestion`.

A sheet's "n lines" are logical lines: an answer may itself hold a newline, so the text can have more newline-separated lines than questions.

## Left out

- File and CSV I/O (`open`, `csv.reader`, `csv.writer`, `write_log`) is not modelled. The log is an input sequence of already-split rows, and a request returns the rows it appends. CSV quoting, short or malformed rows, and unknown row kinds are not representable. The program does not treat a short row (an empty CSV line, say) the same way everywhere:
  - `read_answers`, `read_answers_no_ip` and `read_checks` catch the error per row and skip that row.
  - `get_current_quiz_id` catches it around the whole scan, so the scan stops at that row.
  - The other readers have no `try`: `read_results_from_logfile` (line 188), `read_status`, `get_quiz_details`, `get_participant_details`, `answering_started`, `is_quiz_host` and `get_checkee_id`. The IndexError escapes to the request handler, which shows its error page.
- Time stamps, the caller's address and the form are parameters. The form is a map plus the order its fields are visited in. Iterating a Flask form visits each field name once, so `Requests.EnterAnswersExactly` and `Requests.CheckAnswersExactly` take the field names as distinct.
- `random.shuffle` is a parameter of `Requests.OpenChecking`. `get_random_number` (lines 59-60) is not modelled.
- Flask routing, templates, `Response` and CSRF are not modelled. `wait()`, `start_new_quiz`, `start_quiz`, `participate`, `download`, `back` and `ajax_submit_answer` are outside this model.
- A hand-over to `wait()` (from `enter_answers` before answering opens, and from `open_answering`) is the page `WaitPage`. The PARTICIPANT and STATUS rows `wait()` itself may write are not part of the outcome.
- Report.QuestionLine: the number column is the decimal digit count of n. The program computes `1+int(log(n, 10))` in floating point, which gives one column too few when the float logarithm of a power of ten falls just below the integer (n = 1000). Floating point is not modelled.
- Text.FileStem: `lower()` is modelled for ASCII letters only.
- Requests.IntLiteral: `int()` is modelled for ASCII digits only. Other Unicode decimal digits are not accepted.
- Text.Strip: white space is Python's `str.isspace` set.
- The START_QUIZ question count is a natural number. The program stores it as text and converts it with `int()` where it is used.
- Requests.OpenCheckingAssignsOthers: the pairing is stated for the CHECKER rows. The STATUS row `examine_results` then adds is covered by `Requests.OpenChecking`'s life-cycle clause.
