# process_survey: a verified model of `process_questions.py`

`process_questions.py` turns a survey into statistics. It reads a question
library written in a small LaTeX-like markup (`library.tex`), reads the
Scantron answer records of the students (`scantron.dat`), writes each
student's answers to `answers.csv`, and counts how often each answer was
given to each question. This project models that core in Dafny and proves
what each step promises.

- **Question-library reader** (`read_library`).
  - Every line is stripped and then cut at its first `%` that is not
    preceded by `\`.
  - The line is classified by seven rules tried in order: `begin_document`,
    `begin_zone`, `question`, `end_zone`, `end_document`, `text` and `blank`.
    The five directives refuse any non-blank text after them.
  - A four-state machine (`preamble`, `title_block`, `zone`, `between_zones`)
    then builds the `Library` → `Zone` → `Question` tree. It can also change
    state, stop at `end_document`, or fail with an error that carries the
    1-based line number.
  - The rules' regular expressions are written as matchers on character
    sequences. The question body is greedy: it is the longest body after
    which two braced choices still fit.
  - The reader exists twice. `LibraryReader.ReadFrom` is a function of the
    classified lines. The class `LibraryReader.Reader` and the method
    `LibraryReader.ReadLibrary` update the state and the library line by
    line, as the program does, and are proved to compute the function.
- **Letters** (`ind2chr`, `chr2ind`): indices 0..25 stand for `A`..`Z`, and
  `*` stands for an invalid index.
- **Scantron records** (`read_scantrons`).
  - A lone end-of-file character (26) is skipped.
  - A record shorter than 168 characters (72 + `LAST_SCANTRON_QUESTION_NUMBER`)
    is fatal, and so is a file that gives no answer row at all.
  - The section field (characters 61-63) and the answers field (from
    character 73) are cleaned by `check_match`, which also reports warnings.
  - Each answer digit `d` becomes the letter of index `d - 1`, and a space
    becomes `*`.
- **Answer counts** (`generate_statistics`): the table `n_s_qa` is filled by
  nested loops over a 2-D array. The model also covers its row sums `n_s_q`
  and `n_na_q = N_s - n_s_q`.
- **Answers file** (`write_answers`): a header of quoted `"n. body"` cells
  numbered across all zones, then one row per student. Each cell of a row
  holds the answer's index, or nothing when the answer is not a letter.

Files:
- `outcomes.dfy`: `Option` and `Result`.
- `strings.dfy`: Python's `str.isspace` and `str.strip`.
- `letters.dfy`
- `line_rules.dfy`: comment cutting and the seven rules.
- `library_reader.dfy`
- `library_properties.dfy`: the transition table, and what the whole run builds.
- `scantron.dfy`
- `statistics.dfy`
- `answers_csv.dfy`

Where the code differs from a plain reading of its description, the model
follows the code:
- Cutting a comment keeps the whitespace before the `%`, so `abc % c` becomes
  `abc `.
- Reaching the end of the file returns the library built so far in every
  state, without any error.
- The length check on a Scantron record uses `72 + 96` whatever the number of
  questions.
- `check_match` on the section field can return spaces, which are themselves
  "not a digit". Its result is stated as what it is: every bad character is
  replaced by a space.
- Leading empty lines of the title block leave no newline, because the
  separator is only written once the title block is non-empty.

## Model

| member | source | states |
|---|---|---|
| Letters.Ind2Chr | process_questions.py:164-173 | gives `*` exactly for indices outside 0..25, and otherwise the letter at that index of `string.ascii_uppercase` |
| Letters.Chr2Ind | process_questions.py:175-186 | the result lies in -1..25 and is -1 exactly for a character that is not a letter; a letter's result is its position in `string.ascii_uppercase` or `string.ascii_lowercase` |
| Letters.IndexRoundTrip | process_questions.py:164-186 | `chr2ind(ind2chr(i)) == i` for 0 ≤ i < 26 |
| Letters.LetterRoundTrip | process_questions.py:164-186 | `ind2chr(chr2ind(c)) == c` for every upper-case letter |
| Letters.LowerLikeUpper | process_questions.py:175-186 | a lower-case letter has the index of its upper-case form, and `ind2chr` gives that upper-case form back |
| Letters.InvalidLetterDecodes | process_questions.py:164-186 | `*` decodes to -1, and the invalid indices -1 and 26 come back as -1 |
| Strings.Strip | process_questions.py:218 | no contract of its own; what `strip` keeps is stated by `Strings.StripSpec` |
| Strings.LStripSpec | process_questions.py:218 | the left strip keeps a suffix that does not start with whitespace and drops only whitespace |
| Strings.RStripSpec | process_questions.py:218 | the right strip keeps a prefix that does not end with whitespace and drops only whitespace |
| Strings.StripSlice | process_questions.py:218 | `strip` keeps a middle slice with no whitespace at either end |
| Strings.StripEmpty | process_questions.py:218 | `strip` gives the empty string exactly when the line is all whitespace |
| Strings.StripSpec | process_questions.py:218 | `strip` keeps a middle slice with no whitespace at either end, and is empty exactly when the line is all whitespace |
| Strings.StripUnchanged | process_questions.py:218 | a string with no whitespace at either end is left unchanged |
| Strings.StripIdempotent | process_questions.py:218 | stripping twice is stripping once |
| Strings.StartsWithSplit | process_questions.py:228 | a line starts with a prefix exactly when it is that prefix followed by the rest |
| LineRules.FindComment | process_questions.py:221 | finds the first `%` not preceded by `\` from a position on, or reports that there is none |
| LineRules.StripComment | process_questions.py:221-224 | the result is a prefix of the line with no unescaped `%`, and when it is shorter the line has an unescaped `%` right at its end |
| LineRules.NoCommentUnchanged | process_questions.py:221-224 | a line with no unescaped `%` is unchanged |
| LineRules.StripCommentIdempotent | process_questions.py:221-224 | cutting comments twice is cutting once |
| LineRules.StripCommentExamples | process_questions.py:221-224 | `abc % comment` gives `abc `, `\%` is kept, and a line that starts with `%` becomes empty |
| LineRules.AfterDirectiveShape | process_questions.py:203-207 | a directive matches with tail `t` exactly when the line, without its leading whitespace, is the directive followed by `t` |
| LineRules.SplitAtBraceShape | process_questions.py:204 | splitting at the first `}` gives `(a, b)` exactly when `s` is `a`, `}`, `b` and `a` has no `}` |
| LineRules.MatchBeginZone | process_questions.py:204 | a matched zone title is never empty |
| LineRules.BeginZoneShape | process_questions.py:204 | `begin_zone` gives title and tail exactly when the line is the directive, a non-empty title without `}`, a `}` and the tail |
| LineRules.ChoicesSound | process_questions.py:205 | the two choices read from a text put back together give that text, and neither holds a `}` |
| LineRules.ChoicesComplete | process_questions.py:205 | any two choices without `}` followed by any tail are read back exactly |
| LineRules.QuestionAtSound | process_questions.py:205 | the fields read for a given body length put back together give the rest of the line |
| LineRules.QuestionAtComplete | process_questions.py:205 | every body followed by two choices without `}` and a tail is read back with that body length |
| LineRules.LastFitGreedy | process_questions.py:205 | the greedy search returns the largest length that fits, and fails only when no length fits |
| LineRules.MatchQuestion | process_questions.py:205 | no contract of its own; the match is stated by `LineRules.QuestionSound` and `LineRules.QuestionLongestBody` |
| LineRules.QuestionSound | process_questions.py:205 | a matched `question` line is the directive, the body, the two braced choices and the tail, and the choices hold no `}` |
| LineRules.QuestionLongestBody | process_questions.py:205 | every way of reading a line as a question is matched, and the matched body is at least as long as that reading's body |
| LineRules.RuleMatch | process_questions.py:202-210 | no contract of its own; see `LineRules.RuleMatchRule` and `LineRules.MatchFirst` |
| LineRules.Match | process_questions.py:227-237 | no contract of its own; the first-match order is stated by `LineRules.MatchFirst` |
| LineRules.RuleMatchRule | process_questions.py:202-210 | a rule that matches gives a line of that rule's kind |
| LineRules.MatchFirst | process_questions.py:227-237 | the chosen rule matches the line, and every rule before it in the list does not |
| LineRules.Classify | process_questions.py:227-237 | extra text is fatal exactly for a directive whose tail is not all whitespace, and the error carries the stripped, non-empty tail; any other line keeps the first matching rule |
| LibraryReader.AppendToTitleBlock | process_questions.py:257-261 | no contract of its own; what repeated appends build is stated by `LibraryProperties.AppendAllNonEmpty` and `LibraryProperties.TitleBlockJoin` |
| LibraryReader.NewZone | process_questions.py:245-249 | after `new_zone` the library has a zone to add questions to |
| LibraryReader.NewQuestion | process_questions.py:250-256 | after `new_question` the library still has a last zone |
| LibraryReader.Dispatch | process_questions.py:263-286 | a line the state table accepts leads to a state whose library fits it: empty in the preamble, no zone in the title block, a zone once one was opened |
| LibraryReader.Step | process_questions.py:229-286 | the same for one line, with the extra-text check first |
| LibraryReader.ReadFrom | process_questions.py:213-290 | the reader from a given line on; an error names a line after the ones already read and within the file |
| LibraryReader.ReadLibrarySpec | process_questions.py:191-290 | `read_library` as a function of the file's lines; an error carries the 1-based number of a line of the file |
| LibraryReader.Reader.constructor | process_questions.py:211-212 | the reader starts in `preamble` with an empty title block and no zones |
| LibraryReader.Reader.Transition | process_questions.py:240-242 | only the state name changes |
| LibraryReader.Reader.NewZoneHere | process_questions.py:245-249 | a zone with the stripped title and no questions goes at the end, and the state is kept |
| LibraryReader.Reader.NewQuestionHere | process_questions.py:250-256 | the question goes at the end of the last zone, and nothing else changes |
| LibraryReader.Reader.AppendHere | process_questions.py:257-261 | the line is appended to the title block, after a newline only when the block is non-empty |
| LibraryReader.Reader.Feed | process_questions.py:227-286 | one line changes the state and the library exactly as the state table says, signals a stop at `end_document`, or fails with the table's error |
| LibraryReader.ReadLibrary | process_questions.py:191-290 | the loop over the lines returns what the state machine as a function returns, including the error and its line number |
| LibraryProperties.TransitionTable | process_questions.py:263-286 | a line fails exactly when its (state, rule) pair is not one of the 14 allowed pairs, with "not allowed in state"; only `end_document` in `between_zones` stops; otherwise the next state is the table's |
| LibraryProperties.ExtraTextIsFatal | process_questions.py:229-234 | a directive followed by non-blank text fails in every state, with the rule and the stripped text |
| LibraryProperties.NewZoneShape | process_questions.py:245-249 | the stripped title goes at the end of the titles; the questions and the title block are unchanged |
| LibraryProperties.NewQuestionShape | process_questions.py:250-256 | the question goes at the end of the last zone, the other zones and the titles are unchanged, and the list of all questions grows by that question |
| LibraryProperties.StepTrace | process_questions.py:213-286 | a failing line ends the trace of accepted lines, a stop ends it after the stopping line, and any other line is followed by the rest |
| LibraryProperties.StepTitles | process_questions.py:245-286 | an accepted `begin_zone` line adds its stripped title, and any other accepted line adds none |
| LibraryProperties.StepQuestions | process_questions.py:250-286 | an accepted `question` line adds its question, and any other accepted line adds none |
| LibraryProperties.StepTitleLines | process_questions.py:257-286 | a text or blank line read in the title block is appended to it, and any other accepted line leaves it unchanged |
| LibraryProperties.StepZones | process_questions.py:245-286 | one accepted line changes the zones exactly as the reference `AddEvent` does: `begin_zone` opens a zone with the stripped title, `question` goes at the end of the last zone, any other line changes nothing |
| LibraryProperties.RunZones | process_questions.py:213-290 | a successful run builds the zone tree of its trace: each zone holds the questions accepted after its `begin_zone` line and before the next, in order |
| LibraryProperties.RunTitles | process_questions.py:213-290 | the zone titles are the stripped titles of the accepted `begin_zone` lines, in order |
| LibraryProperties.RunQuestions | process_questions.py:213-290 | the questions of all zones are those of the accepted `question` lines, in order, their fields stripped |
| LibraryProperties.RunTitleBlock | process_questions.py:213-290 | the title block is built from the text and blank lines read in the `title_block` state, in order |
| LibraryProperties.AppendAllConcat | process_questions.py:257-261 | appending two groups of lines one after the other is appending them all at once |
| LibraryProperties.RunEnds | process_questions.py:213-290 | an error carries the number of the line right after the accepted ones; a success has read every line or stopped at `end_document` in `between_zones` |
| LibraryProperties.StopIgnoresLaterLines | process_questions.py:283 | once `end_document` stops the reader, lines after it change nothing |
| LibraryProperties.AppendAllNonEmpty | process_questions.py:257-261 | once the title block is non-empty, each line is added after a newline |
| LibraryProperties.TitleBlockJoin | process_questions.py:257-261 | the title block is its lines joined by newlines, leading empty lines dropped |
| LibraryProperties.BlankLineIsEmpty | process_questions.py:210-224 | a line classified as blank is empty once stripped and cut |
| LibraryProperties.ReadLibraryBuilds | process_questions.py:191-290 | for a whole file, the zones are the tree `TraceZones` builds from the accepted lines, each question in the zone opened most recently; the titles, all questions and the title block are those of the accepted lines |
| Scantron.Substitute | process_questions.py:311 | same length; each bad character becomes a space and every other character is kept |
| Scantron.SubstituteClean | process_questions.py:311-330 | a field with no bad character is unchanged |
| Scantron.InvalidCharWarningsSpec | process_questions.py:322-327 | there is no warning exactly when no character is bad; each warning names a bad character, its place in the field and in the record |
| Scantron.CheckMatch | process_questions.py:308-330 | no contract of its own; see `Scantron.CheckMatchCleaned`, `Scantron.CheckMatchResult` and `Scantron.CheckMatchWarns` |
| Scantron.CheckMatchCleaned | process_questions.py:308-330 | every path returns the field with bad characters made spaces, stripped when asked |
| Scantron.CheckMatchResult | process_questions.py:308-330 | the result holds only good characters or spaces; the answers pattern leaves it clean; without stripping its length is the field's |
| Scantron.CheckMatchWarns | process_questions.py:314-330 | there are no warnings exactly when the field is long enough and has no bad character |
| Scantron.DecodeAnswer | process_questions.py:345-346 | the letter is `*` or one of `A`..`I`, and its index is -1 for a space and `d - 1` for a digit `d` |
| Scantron.DecodeAnswerSpec | process_questions.py:345-346 | a space and `0` decode to `*`, and `1`..`9` decode to `A`..`I` with index `d - 1` |
| Scantron.DecodeAnswers | process_questions.py:345-346 | one letter per answer character |
| Scantron.DecodeExample | process_questions.py:345-346 | `"1 3"` decodes to `A`, `*`, `C` |
| Scantron.ReadRecord | process_questions.py:332-346 | a record has one answer per question, or fewer when the record ends first |
| Scantron.ScantronsSpec | process_questions.py:304-352 | the loop over the records: a success has one section per answer row and at most one row per record; its only error is a record too short |
| Scantron.ErrorPersists | process_questions.py:338-340 | once a record is too short, later records do not change the error |
| Scantron.RecordShort | process_questions.py:332-340 | a record is refused exactly when it is too short and is not the lone end-of-file character, and the refusal carries its length |
| Scantron.ScantronsLast | process_questions.py:304-340 | one more record fails the reading exactly when the earlier ones did or it is too short, and an earlier error is kept |
| Scantron.FirstShortSpec | process_questions.py:332-340 | the first short record is found exactly when there is one, and no record before it is short |
| Scantron.ScantronsError | process_questions.py:304-340 | reading fails exactly at the first short record, with its 1-based number, its length and 168 |
| Scantron.ScantronsFail | process_questions.py:332-340 | reading fails exactly when some record is too short (a lone end-of-file character is not), and the error names the first such record, its length and 168 |
| Scantron.RecordRow | process_questions.py:342-346 | with at most 96 questions a record gives exactly one answer per question, each `*` or `A`..`I` |
| Scantron.ScantronRows | process_questions.py:304-357 | one section and one answer row per record except end-of-file markers, each row a full row of valid answers |
| Scantron.MarkerCountLast | process_questions.py:332-334 | the count of end-of-file markers grows by one exactly when the last record is one |
| Scantron.NoRowsSpec | process_questions.py:332-352 | the loop gives no answer row exactly when every record is the end-of-file marker |
| Scantron.ReadScantronsSpec | process_questions.py:295-357 | no contract of its own; see `Scantron.ReadScantronsOutcome` |
| Scantron.ReadScantronsOutcome | process_questions.py:332-355 | the reading fails at the first short record when there is one; otherwise it fails exactly when every record is the end-of-file marker (an empty file included), because `log_array` refuses the one-dimensional answers array; otherwise it gives what the loop gives, with at least one row |
| Scantron.ReadScantrons | process_questions.py:295-357 | the loop over the records, then the check on the answers array, returns exactly `ReadScantronsSpec`: the sections, answers and warnings, the first record-length error, or the error for no answer row |
| Statistics.ScantronAnswersGrid | process_questions.py:452-457 | the answers read from Scantron records form a grid with indices below 9, and fit a table of 5 answers exactly when no answer is beyond `E` |
| Statistics.SumHitsOnce | process_questions.py:455-457 | an answer is counted in exactly one column when its index is a column, and in none otherwise |
| Statistics.SumCountsStep | process_questions.py:453-457 | one more student adds that student's hits to the row sum |
| Statistics.SumCountsZero | process_questions.py:452 | with no students every count is zero |
| Statistics.RowSumIsAnswered | process_questions.py:461 | a row sum `n_s_q[q]` is the number of students who answered question `q` with a letter |
| Statistics.AnsweredPlusUnanswered | process_questions.py:464 | the students who answered and those who did not add up to `N_s` |
| Statistics.CountAnswers | process_questions.py:452-457 | `n_s_qa[q, x]` is the number of students whose answer to `q` has index `x` |
| Statistics.SumRowCounts | process_questions.py:461 | the row sum of the table is the sum of the counts it holds |
| Statistics.GenerateCounts | process_questions.py:452-464 | the counts as above; `n_s_q[q]` counts the letters given to `q`, `n_na_q[q]` the non-letters, and they add up to `N_s` |
| AnswersCsv.Decimal | process_questions.py:375-385 | `%d` writes a non-empty run of digits with no leading zero |
| AnswersCsv.DecimalRoundTrip | process_questions.py:375-385 | reading the digits back gives the number |
| AnswersCsv.Join | process_questions.py:373-385 | no contract of its own; see `AnswersCsv.JoinSnoc` and `AnswersCsv.SplitJoin` |
| AnswersCsv.JoinSnoc | process_questions.py:373-385 | writing one more cell adds a comma before it, except for the first cell |
| AnswersCsv.SplitJoin | process_questions.py:379-386 | cells without commas, written with commas between them, split back into the same cells |
| AnswersCsv.AnswerCell | process_questions.py:383-385 | no contract of its own; see `AnswersCsv.AnswerCellDecodes` |
| AnswersCsv.AnswerCellDecodes | process_questions.py:383-385 | a cell is empty exactly when the answer is not a letter, and otherwise reads back as its index |
| AnswersCsv.RowRoundTrip | process_questions.py:379-386 | a student's row splits into one cell per question, each empty exactly for a non-letter and otherwise the answer's index |
| AnswersCsv.WriteRow | process_questions.py:380-385 | the loop writes the cells of one student separated by commas |
| AnswersCsv.HeaderSnoc | process_questions.py:373-376 | one more question adds a comma, unless it is the first, and its numbered cell |
| AnswersCsv.HeaderCell | process_questions.py:375 | no contract of its own; see `AnswersCsv.HeaderCellRoundTrip` |
| AnswersCsv.HeaderCellRoundTrip | process_questions.py:375 | a header cell reads back as its 1-based number and the question's body, whatever the body holds |
| AnswersCsv.HeaderNumbering | process_questions.py:370-376 | the header has one cell per question; the `k`-th over all zones reads back as `k + 1` and that question's body |
| AnswersCsv.AllQuestionsPrefix | process_questions.py:371-372 | the zones up to one zone hold the questions before it, then its own |
| AnswersCsv.WriteZoneCells | process_questions.py:372-376 | the inner loop adds the numbered cells of one zone's questions after those already written |
| AnswersCsv.WriteHeader | process_questions.py:370-377 | the nested loops with their running number write the header cells of all questions in zone order |
| AnswersCsv.RowsTextSnoc | process_questions.py:379-386 | the lines of one more student are the earlier lines, then that student's line and a newline |
| AnswersCsv.WriteAnswers | process_questions.py:362-387 | the file is the header line, then one line per student, each ending with a newline |

## Left out

- Logging (`log`, `log_and_print`, `log_array`, `init_logging`): the reader and the Scantron reader do not print anything. `die` becomes an error result that carries the line number. The one check `log_array` makes on the answers array, that it is two-dimensional, is modelled as the error `Scantron.NoAnswerRows`; the check on other arrays is not. The warnings of `check_match` are returned as data (`Scantron.Warning`); their wording is not modelled.
- File handling and `main`: the library and Scantron files are given as sequences of lines, and the answers file is returned as a string. A library line is given without its line terminator, because the reader strips it anyway. A Scantron record is given as the file gives it, so its length counts the terminator. `N_q`, the total number of questions, is computed in `main` and here is a parameter; it equals the length of `LibraryProperties.AllQuestions`.
- The "no matches found for line" error of `read_library` cannot happen, because the `text` and `blank` rules together match every line. The "unknown state" error cannot happen either, because `StateName` has only the four states. Neither is modelled.
- `ReadState.zone` and `ReadState.question` are not kept. The zone that `new_question` appends to is always the last zone of `library.zones`, so the model appends to the last zone. Python's aliasing between the state's zone and the library's list is not modelled.
- Line breaks inside a library line are not modelled: a line is taken to hold no `\n`, as reading the file line by line guarantees. On a string holding one, Python's `.` and `$` behave differently from the matchers here.
- `chr2ind` on strings other than one character is not modelled. The program only calls it on single answer characters.
- Statistics.CountAnswers: requires every answer index to be below `N_a`. The program instead raises an `IndexError` when an answer is `F`..`I` (Scantron digits 6-9), because that index is past the end of `n_s_qa`. `Statistics.ScantronAnswersGrid` states exactly when that happens.
- Statistics.GenerateCounts: requires every answer index to be below `N_a`, for the same reason.
- Scantron.ScantronRows: is stated for at most 96 questions. With more questions a long record may give more answers than a shorter one, and numpy's array construction of such ragged rows is not modelled.
- The floating-point statistics `p_q`, `r_s_qa` and `r_na_q`, `write_csv`, and the TeX report writers are not modelled. They are floating point, formatting, and file output.
- numpy arrays: the answers are a sequence of rows and the section numbers a sequence of strings. `n_s_qa` is a Dafny `array2<int>`.
- CSV quoting: `write_answers` writes the question bodies between quotes without escaping. The header is modelled as written, and only its cells are parsed back, not the header line as a whole.
