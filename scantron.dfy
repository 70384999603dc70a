/**
 * Reading the Scantron file (`read_scantrons`): each record gives the
 * section field (characters 61-63) and the answers field (from character 73,
 * one character per question). A field is cleaned by `check_match`, which
 * turns every invalid character into a space and reports what it found, and
 * each answer digit becomes a letter: `1` is `A`, ..., `9` is `I`, while a
 * space or `0` means no valid answer, `*`.
 */
module Scantron {
  import opened Outcomes
  import opened Strings
  import opened Letters

  /** The number of answer columns on the Scantron form. */
  const LastScantronQuestionNumber: nat := 96

  /** Where the section field starts (0-based), and its length. */
  const SectionOffset: nat := 60
  const SectionLength: nat := 3

  /** Where the answers field starts (0-based). */
  const AnswersOffset: nat := 72

  /** Every record must be at least this long: the answers field for all 96 questions. */
  const RecordLength: nat := AnswersOffset + LastScantronQuestionNumber

  /** The end-of-file character (26, Ctrl-Z) that can make up the last record on its own. */
  const EndOfFile: char := 26 as char

  /** The record that is the end-of-file character alone. */
  predicate EndOfFileMarker(line: string) {
    |line| == 1 && line[0] == EndOfFile
  }

  /** The two character classes `check_match` is used with: anything but a digit for the section, anything but a digit or a space for the answers. */
  datatype Pattern = NonDigit | NonDigitOrSpace

  /** The character is one the pattern matches, that is, an invalid one. */
  predicate Bad(p: Pattern, c: char) {
    match p
    case NonDigit => !IsDigit(c)
    case NonDigitOrSpace => !IsDigit(c) && c != ' '
  }

  /** `re.sub(pattern, " ", s)`: every invalid character becomes a space, the others stay. */
  function Substitute(p: Pattern, s: string): (r: string)
    ensures |r| == |s|
    ensures forall k :: 0 <= k < |s| ==> r[k] == (if Bad(p, s[k]) then ' ' else s[k])
  {
    if s == [] then [] else [if Bad(p, s[0]) then ' ' else s[0]] + Substitute(p, s[1..])
  }

  /** No character of `s` is invalid. */
  predicate Clean(p: Pattern, s: string) {
    forall k :: 0 <= k < |s| ==> !Bad(p, s[k])
  }

  /** A warning `check_match` reports. Positions are 1-based. */
  datatype Warning =
    | EmptyField(field: string, position: nat)
    | ShortField(field: string, position: nat, length: nat, minLength: nat, text: string)
    | InvalidChar(character: char, position: nat, fieldPosition: nat, field: string, text: string)

  /** The value `check_match` returns, and the warnings it reports on the way. */
  datatype Checked = Checked(value: string, warnings: seq<Warning>)

  /** One warning for each invalid character of `s` from index `i` on, in order (`re.finditer`). */
  function InvalidCharWarnings(p: Pattern, s: string, i: nat, offset: nat, field: string): (w: seq<Warning>)
    requires i <= |s|
    decreases |s| - i
  {
    if i == |s| then []
    else if Bad(p, s[i]) then [InvalidChar(s[i], i + offset + 1, i + 1, field, s)] + InvalidCharWarnings(p, s, i + 1, offset, field)
    else InvalidCharWarnings(p, s, i + 1, offset, field)
  }

  /** The warnings name exactly the invalid characters from index `i` on: there are none exactly when that part is clean. */
  lemma {:induction false} InvalidCharWarningsSpec(p: Pattern, s: string, i: nat, offset: nat, field: string)
    requires i <= |s|
    ensures InvalidCharWarnings(p, s, i, offset, field) == [] <==> forall k :: i <= k < |s| ==> !Bad(p, s[k])
    ensures forall w :: w in InvalidCharWarnings(p, s, i, offset, field) ==>
      w.InvalidChar? && i + 1 <= w.fieldPosition <= |s| && w.character == s[w.fieldPosition - 1] && Bad(p, w.character)
      && w.position == w.fieldPosition + offset
    decreases |s| - i
  {
    if i < |s| {
      InvalidCharWarningsSpec(p, s, i + 1, offset, field);
    }
  }

  /**
   * `check_match`: the field, stripped first when `strip` is set, with its
   * invalid characters replaced by spaces (and stripped again); a warning
   * when the field is empty or shorter than `minLength`, otherwise one
   * warning for each invalid character.
   */
  function CheckMatch(s: string, p: Pattern, offset: nat, field: string, minLength: nat, strip: bool): Checked {
    var s := if strip then Strip(s) else s;
    var cleaned := if strip then Strip(Substitute(p, s)) else Substitute(p, s);
    if |s| == 0 && minLength > 0 then Checked(cleaned, [EmptyField(field, offset + 1)])
    else if |s| < minLength then Checked(cleaned, [ShortField(field, offset + 1, |s|, minLength, s)])
    else
      var warnings := InvalidCharWarnings(p, s, 0, offset, field);
      if warnings != [] then Checked(cleaned, warnings) else Checked(s, [])
  }

  /** Substituting leaves a clean field as it is. */
  lemma {:induction false} SubstituteClean(p: Pattern, s: string)
    requires Clean(p, s)
    ensures Substitute(p, s) == s
  {
  }

  /**
   * Whatever path `check_match` takes, it returns the cleaned field: when it
   * finds no invalid character, the field it returns unchanged is the cleaned
   * one.
   */
  lemma CheckMatchCleaned(s: string, p: Pattern, offset: nat, field: string, minLength: nat, strip: bool)
    ensures CheckMatch(s, p, offset, field, minLength, strip).value
      == if strip then Strip(Substitute(p, Strip(s))) else Substitute(p, s)
  {
    var t := if strip then Strip(s) else s;
    InvalidCharWarningsSpec(p, t, 0, offset, field);
    if Clean(p, t) {
      SubstituteClean(p, t);
      if strip {
        StripIdempotent(s);
      }
    }
  }

  /**
   * What `check_match` returns holds no invalid character other than a space:
   * for the answers pattern, which accepts spaces, no invalid character at
   * all. Without stripping, the length of the field is kept.
   */
  lemma CheckMatchResult(s: string, p: Pattern, offset: nat, field: string, minLength: nat, strip: bool)
    ensures var v := CheckMatch(s, p, offset, field, minLength, strip).value;
      forall k :: 0 <= k < |v| ==> !Bad(p, v[k]) || v[k] == ' '
    ensures p == NonDigitOrSpace ==> Clean(p, CheckMatch(s, p, offset, field, minLength, strip).value)
    ensures !strip ==> |CheckMatch(s, p, offset, field, minLength, strip).value| == |s|
  {
    CheckMatchCleaned(s, p, offset, field, minLength, strip);
    if strip {
      StripKeeps(Substitute(p, Strip(s)));
    }
  }

  /** Every character `Strip` keeps is a character of the field. */
  lemma StripKeeps(u: string)
    ensures forall k :: 0 <= k < |Strip(u)| ==> Strip(u)[k] in u
  {
    StripSpec(u);
    var i := |u| - |LStrip(u)|;
    forall k | 0 <= k < |Strip(u)|
      ensures Strip(u)[k] in u
    {
      assert Strip(u)[k] == u[i + k];
    }
  }

  /** `check_match` warns exactly when the field is too short or holds an invalid character. */
  lemma CheckMatchWarns(s: string, p: Pattern, offset: nat, field: string, minLength: nat, strip: bool)
    ensures var t := if strip then Strip(s) else s;
      CheckMatch(s, p, offset, field, minLength, strip).warnings == [] <==> minLength <= |t| && Clean(p, t)
  {
    var t := if strip then Strip(s) else s;
    InvalidCharWarningsSpec(p, t, 0, offset, field);
  }

  /** The value of a digit character. */
  function DigitValue(c: char): (d: nat)
    requires IsDigit(c)
    ensures d < 10
  {
    c as int - '0' as int
  }

  /** `"*" if c == " " else ind2chr(int(c) - 1)`. */
  function DecodeAnswer(c: char): (r: char)
    requires IsDigit(c) || c == ' '
    ensures r == InvalidLetter || 'A' <= r <= 'I'
    ensures Chr2Ind(r) == if c == ' ' then -1 else DigitValue(c) - 1
  {
    if c == ' ' then InvalidLetter else Ind2Chr(DigitValue(c) - 1)
  }

  /**
   * A space and `0` decode to `*`, meaning no valid answer; `1` to `9` decode
   * to the letters `A` to `I`, whose index is one less than the digit.
   */
  lemma DecodeAnswerSpec(c: char)
    requires IsDigit(c) || c == ' '
    ensures DecodeAnswer(c) == InvalidLetter <==> c == ' ' || c == '0'
    ensures c != ' ' && c != '0' ==> 'A' <= DecodeAnswer(c) <= 'I' && Chr2Ind(DecodeAnswer(c)) == DigitValue(c) - 1
    ensures Chr2Ind(DecodeAnswer(c)) < 9
  {
  }

  /** The answers field decoded character by character. */
  function DecodeAnswers(s: string): (r: seq<char>)
    requires Clean(NonDigitOrSpace, s)
    ensures |r| == |s|
  {
    seq(|s|, k requires 0 <= k < |s| => DecodeAnswer(s[k]))
  }

  /** `"1 3"` decodes to `A`, `*`, `C`. */
  lemma DecodeExample()
    ensures DecodeAnswers("1 3") == ['A', '*', 'C']
  {
  }

  /** What one record of the file gives. */
  datatype RecordResult =
    | SkipRecord
    | ShortRecord(length: nat)
    | Record(section: string, answers: seq<char>, warnings: seq<Warning>)

  /**
   * One record: the lone end-of-file character is skipped, a record shorter
   * than `RecordLength` is fatal, and otherwise the section and the first
   * `questionCount` answers are cleaned and the answers decoded.
   */
  function ReadRecord(line: string, questionCount: nat): (r: RecordResult)
    ensures r.Record? ==> |r.answers| == if AnswersOffset + questionCount <= |line| then questionCount else |line| - AnswersOffset
  {
    if EndOfFileMarker(line) then SkipRecord
    else if |line| < RecordLength then ShortRecord(|line|)
    else
      var answersEnd := if AnswersOffset + questionCount <= |line| then AnswersOffset + questionCount else |line|;
      var section := CheckMatch(line[SectionOffset..SectionOffset + SectionLength], NonDigit, SectionOffset, "Section", 3, true);
      var answers := CheckMatch(line[AnswersOffset..answersEnd], NonDigitOrSpace, AnswersOffset, "Answers", 0, false);
      CheckMatchResult(line[AnswersOffset..answersEnd], NonDigitOrSpace, AnswersOffset, "Answers", 0, false);
      Record(section.value, DecodeAnswers(answers.value), section.warnings + answers.warnings)
  }

  /** A record that is neither the end-of-file marker nor long enough. */
  predicate Short(line: string) {
    !EndOfFileMarker(line) && |line| < RecordLength
  }

  /**
   * The fatal errors of `read_scantrons`: a record too short, with its
   * 1-based number; or no answer row at all, so that the answers array is
   * not two-dimensional and `log_array` stops the program.
   */
  datatype ScantronError =
    | LineTooShort(lineNumber: nat, length: nat, expected: nat)
    | NoAnswerRows

  /** The sections (`t`), the decoded answers (`a`, one row per student) and every warning, in order. */
  datatype Scantrons = Scantrons(sections: seq<string>, answers: seq<seq<char>>, warnings: seq<Warning>)

  /**
   * The loop of `read_scantrons` over the records of a file, defined record
   * by record from the first: one section and one answer row per record read.
   */
  function ScantronsSpec(lines: seq<string>, questionCount: nat): (r: Result<Scantrons, ScantronError>)
    ensures r.Ok? ==> |r.value.sections| == |r.value.answers| <= |lines|
    ensures r.Err? ==> r.error.LineTooShort?
    decreases |lines|
  {
    if lines == [] then Ok(Scantrons([], [], []))
    else
      var last := |lines| - 1;
      match ScantronsSpec(lines[..last], questionCount)
      case Err(e) => Err(e)
      case Ok(acc) =>
        match ReadRecord(lines[last], questionCount)
        case SkipRecord => Ok(acc)
        case ShortRecord(length) => Err(LineTooShort(last + 1, length, RecordLength))
        case Record(section, answers, warnings) =>
          Ok(Scantrons(acc.sections + [section], acc.answers + [answers], acc.warnings + warnings))
  }

  /** Once a record is fatal, the records after it do not matter. */
  lemma {:induction false} ErrorPersists(lines: seq<string>, j: nat, questionCount: nat)
    requires j <= |lines| && ScantronsSpec(lines[..j], questionCount).Err?
    ensures ScantronsSpec(lines, questionCount) == ScantronsSpec(lines[..j], questionCount)
    decreases |lines| - j
  {
    if j < |lines| {
      assert lines[..j + 1][..j] == lines[..j];
      ErrorPersists(lines, j + 1, questionCount);
    } else {
      assert lines[..j] == lines;
    }
  }

  /**
   * The file fails exactly when some record is too short, and then at the
   * first such record, with its length; every record before it is read.
   */
  /** A record is refused exactly when it is too short, and the refusal carries its length. */
  lemma RecordShort(line: string, questionCount: nat)
    ensures ReadRecord(line, questionCount).ShortRecord? <==> Short(line)
    ensures ReadRecord(line, questionCount).ShortRecord? ==> ReadRecord(line, questionCount).length == |line|
  {
  }

  /** The records read so far fail exactly when the earlier ones did or the last one is too short, and the first error is kept. */
  lemma ScantronsLast(lines: seq<string>, questionCount: nat)
    requires lines != []
    ensures var init := lines[..|lines| - 1];
      var last := lines[|lines| - 1];
      && (ScantronsSpec(lines, questionCount).Err? <==> ScantronsSpec(init, questionCount).Err? || Short(last))
      && (ScantronsSpec(init, questionCount).Err? ==> ScantronsSpec(lines, questionCount) == ScantronsSpec(init, questionCount))
      && (ScantronsSpec(init, questionCount).Ok? && Short(last) ==>
            ScantronsSpec(lines, questionCount) == Err(LineTooShort(|lines|, |last|, RecordLength)))
  {
    RecordShort(lines[|lines| - 1], questionCount);
  }

  /** The index of the first record that is too short, if any. */
  function FirstShort(lines: seq<string>): Option<nat>
    decreases |lines|
  {
    if lines == [] then None
    else
      match FirstShort(lines[..|lines| - 1])
      case Some(k) => Some(k)
      case None => if Short(lines[|lines| - 1]) then Some(|lines| - 1) else None
  }

  /** `FirstShort` finds a short record exactly when there is one, and no record before it is short. */
  lemma {:induction false} FirstShortSpec(lines: seq<string>)
    ensures FirstShort(lines).None? <==> forall k :: 0 <= k < |lines| ==> !Short(lines[k])
    ensures FirstShort(lines).Some? ==>
      FirstShort(lines).value < |lines| && Short(lines[FirstShort(lines).value])
      && forall k :: 0 <= k < FirstShort(lines).value ==> !Short(lines[k])
    decreases |lines|
  {
    if lines != [] {
      var init := lines[..|lines| - 1];
      FirstShortSpec(init);
      assert forall k :: 0 <= k < |init| ==> init[k] == lines[k];
    }
  }

  /** Reading fails exactly at the first short record, with its 1-based number and length. */
  lemma {:induction false} ScantronsError(lines: seq<string>, questionCount: nat)
    ensures ScantronsSpec(lines, questionCount).Err? <==> FirstShort(lines).Some?
    ensures FirstShort(lines).Some? ==>
      FirstShort(lines).value < |lines| &&
      ScantronsSpec(lines, questionCount).error ==
        LineTooShort(FirstShort(lines).value + 1, |lines[FirstShort(lines).value]|, RecordLength)
    decreases |lines|
  {
    if lines != [] {
      var init := lines[..|lines| - 1];
      ScantronsError(init, questionCount);
      ScantronsLast(lines, questionCount);
      if FirstShort(init).Some? {
        assert lines[FirstShort(init).value] == init[FirstShort(init).value];
      }
    }
  }

  lemma ScantronsFail(lines: seq<string>, questionCount: nat)
    ensures ScantronsSpec(lines, questionCount).Err? <==> exists k :: 0 <= k < |lines| && Short(lines[k])
    ensures ScantronsSpec(lines, questionCount).Err? ==>
      var e := ScantronsSpec(lines, questionCount).error;
      && 1 <= e.lineNumber <= |lines| && Short(lines[e.lineNumber - 1])
      && e.length == |lines[e.lineNumber - 1]| && e.expected == RecordLength
      && forall k :: 0 <= k < e.lineNumber - 1 ==> !Short(lines[k])
  {
    ScantronsError(lines, questionCount);
    FirstShortSpec(lines);
  }


  /**
   * With no more questions than answer columns, a record that is read has
   * one answer per question, each `*` or a letter from `A` to `I`.
   */
  lemma RecordRow(line: string, questionCount: nat)
    requires questionCount <= LastScantronQuestionNumber
    requires ReadRecord(line, questionCount).Record?
    ensures ValidRow(ReadRecord(line, questionCount).answers, questionCount)
  {
    var field := line[AnswersOffset..AnswersOffset + questionCount];
    var v := CheckMatch(field, NonDigitOrSpace, AnswersOffset, "Answers", 0, false).value;
    CheckMatchResult(field, NonDigitOrSpace, AnswersOffset, "Answers", 0, false);
    assert ReadRecord(line, questionCount).answers == DecodeAnswers(v);
    forall q | 0 <= q < questionCount
      ensures ValidAnswer(DecodeAnswers(v)[q])
    {
      DecodeAnswerSpec(v[q]);
    }
  }

  /** A decoded answer: `*`, or a letter from `A` to `I`. */
  predicate ValidAnswer(c: char) {
    c == InvalidLetter || 'A' <= c <= 'I'
  }

  /** A row of one decoded answer per question. */
  predicate ValidRow(row: seq<char>, questionCount: nat) {
    |row| == questionCount && forall q :: 0 <= q < |row| ==> ValidAnswer(row[q])
  }

  /**
   * With no more questions than answer columns, a file read without error
   * has one section and one answer row per record other than the end-of-file
   * marker, every row has one answer per question, and every answer is `*`
   * or a letter from `A` to `I`.
   */
  lemma {:induction false} ScantronRows(lines: seq<string>, questionCount: nat)
    requires questionCount <= LastScantronQuestionNumber
    requires ScantronsSpec(lines, questionCount).Ok?
    ensures var r := ScantronsSpec(lines, questionCount).value;
      && |r.sections| == |r.answers| == |lines| - MarkerCount(lines)
      && forall s :: 0 <= s < |r.answers| ==> ValidRow(r.answers[s], questionCount)
    decreases |lines|
  {
    if lines != [] {
      var last := |lines| - 1;
      ScantronsOkLast(lines, questionCount);
      ScantronRows(lines[..last], questionCount);
      MarkerCountLast(lines);
      if !EndOfFileMarker(lines[last]) {
        RecordRow(lines[last], questionCount);
      }
    }
  }

  /** A file read without error has read its earlier records without error; the end-of-file marker adds nothing, and any other record adds its section and its answer row. */
  lemma ScantronsOkLast(lines: seq<string>, questionCount: nat)
    requires lines != [] && ScantronsSpec(lines, questionCount).Ok?
    ensures ScantronsSpec(lines[..|lines| - 1], questionCount).Ok?
    ensures var acc := ScantronsSpec(lines[..|lines| - 1], questionCount).value;
      var r := ScantronsSpec(lines, questionCount).value;
      var line := lines[|lines| - 1];
      if EndOfFileMarker(line) then r.sections == acc.sections && r.answers == acc.answers
      else
        && ReadRecord(line, questionCount).Record?
        && r.sections == acc.sections + [ReadRecord(line, questionCount).section]
        && r.answers == acc.answers + [ReadRecord(line, questionCount).answers]
  {
  }

  /** The number of records that are the end-of-file marker. */
  function MarkerCount(lines: seq<string>): (n: nat)
    ensures n <= |lines|
  {
    if lines == [] then 0
    else MarkerCount(lines[..|lines| - 1]) + (if EndOfFileMarker(lines[|lines| - 1]) then 1 else 0)
  }

  /** Unfolding `MarkerCount` at the last record. */
  lemma MarkerCountLast(lines: seq<string>)
    requires lines != []
    ensures MarkerCount(lines) == MarkerCount(lines[..|lines| - 1]) + (if EndOfFileMarker(lines[|lines| - 1]) then 1 else 0)
  {
  }

  /**
   * `read_scantrons` on the records of a file: the loop over the records,
   * then the check of `log_array` that the answers form a two-dimensional
   * array, which fails when no record gave an answer row.
   */
  function ReadScantronsSpec(lines: seq<string>, questionCount: nat): Result<Scantrons, ScantronError> {
    match ScantronsSpec(lines, questionCount)
    case Err(e) => Err(e)
    case Ok(acc) => if acc.answers == [] then Err(NoAnswerRows) else Ok(acc)
  }

  /** The loop gives no answer row exactly when every record is the end-of-file marker. */
  lemma {:induction false} NoRowsSpec(lines: seq<string>, questionCount: nat)
    requires ScantronsSpec(lines, questionCount).Ok?
    ensures ScantronsSpec(lines, questionCount).value.answers == [] <==>
      forall k :: 0 <= k < |lines| ==> EndOfFileMarker(lines[k])
    decreases |lines|
  {
    if lines != [] {
      var last := |lines| - 1;
      ScantronsOkLast(lines, questionCount);
      NoRowsSpec(lines[..last], questionCount);
      assert forall k :: 0 <= k < last ==> lines[..last][k] == lines[k];
    }
  }

  /**
   * The whole reading fails at the first short record when there is one;
   * otherwise it fails exactly when every record is the end-of-file marker,
   * an empty file included; otherwise it gives what the loop gives.
   */
  lemma ReadScantronsOutcome(lines: seq<string>, questionCount: nat)
    ensures ScantronsSpec(lines, questionCount).Err? ==> ReadScantronsSpec(lines, questionCount) == ScantronsSpec(lines, questionCount)
    ensures ReadScantronsSpec(lines, questionCount) == Err(NoAnswerRows) <==>
      forall k :: 0 <= k < |lines| ==> EndOfFileMarker(lines[k])
    ensures ReadScantronsSpec(lines, questionCount).Ok? ==>
      ReadScantronsSpec(lines, questionCount) == ScantronsSpec(lines, questionCount)
      && ReadScantronsSpec(lines, questionCount).value.answers != []
  {
    ScantronsFail(lines, questionCount);
    if ScantronsSpec(lines, questionCount).Ok? {
      NoRowsSpec(lines, questionCount);
    }
  }

  /** `read_scantrons`: reads the records one by one, appending each section and answer row, then refuses a file that gave no row. */
  method ReadScantrons(lines: seq<string>, questionCount: nat) returns (r: Result<Scantrons, ScantronError>)
    ensures r == ReadScantronsSpec(lines, questionCount)
  {
    var sections: seq<string> := [];
    var answers: seq<seq<char>> := [];
    var warnings: seq<Warning> := [];
    var i := 0;
    while i < |lines|
      invariant 0 <= i <= |lines|
      invariant ScantronsSpec(lines[..i], questionCount) == Ok(Scantrons(sections, answers, warnings))
    {
      assert lines[..i + 1][..i] == lines[..i];
      match ReadRecord(lines[i], questionCount) {
        case SkipRecord =>
        case ShortRecord(length) =>
          ErrorPersists(lines, i + 1, questionCount);
          return Err(LineTooShort(i + 1, length, RecordLength));
        case Record(section, row, found) =>
          sections := sections + [section];
          answers := answers + [row];
          warnings := warnings + found;
      }
      i := i + 1;
    }
    assert lines[..i] == lines;
    if answers == [] {
      return Err(NoAnswerRows);
    }
    r := Ok(Scantrons(sections, answers, warnings));
  }
}
