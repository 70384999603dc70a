/**
 * The per-student answers file (`write_answers`): a header line with one
 * quoted cell `"n. body"` per question, numbered from 1 across all zones in
 * file order, then one line per student with, for each question, the index
 * of the answer letter, or an empty cell when the answer is not a letter.
 * Cells are separated by commas and every line ends with a newline.
 */
module AnswersCsv {
  import opened Outcomes
  import opened Strings
  import opened Letters
  import opened LibraryReader
  import opened LibraryProperties

  /******************************** decimals ********************************/

  function DigitChar(d: nat): char
    requires d < 10
  {
    ('0' as int + d) as char
  }

  predicate AllDigits(s: string) {
    forall k :: 0 <= k < |s| ==> IsDigit(s[k])
  }

  /** `"%d" % n`: the decimal digits of `n`, with no leading zero. */
  function Decimal(n: nat): (r: string)
    ensures r != [] && AllDigits(r)
    ensures r[0] == '0' ==> n == 0
  {
    if n < 10 then [DigitChar(n)] else Decimal(n / 10) + [DigitChar(n % 10)]
  }

  /** The number a string of decimal digits denotes. */
  function ParseDecimal(s: string): nat
    requires AllDigits(s)
  {
    if s == [] then 0 else ParseDecimal(s[..|s| - 1]) * 10 + (s[|s| - 1] as int - '0' as int)
  }

  /** Reading the digits `%d` writes gives the number back. */
  lemma {:induction false} DecimalRoundTrip(n: nat)
    ensures ParseDecimal(Decimal(n)) == n
  {
    if n >= 10 {
      DecimalRoundTrip(n / 10);
      var s := Decimal(n);
      assert s[..|s| - 1] == Decimal(n / 10);
    }
  }

  /**************************** comma separation ****************************/

  /** The cells with a comma between each two, as the program writes them: a comma before every cell but the first. */
  function Join(cells: seq<string>): string {
    if cells == [] then "" else if |cells| == 1 then cells[0] else cells[0] + "," + Join(cells[1..])
  }

  /** Writing one more cell adds a comma and the cell, unless it is the first. */
  lemma {:induction false} JoinSnoc(cells: seq<string>, x: string)
    ensures Join(cells + [x]) == if cells == [] then x else Join(cells) + "," + x
  {
    if |cells| == 1 {
      assert (cells + [x])[1..] == [x];
    } else if |cells| > 1 {
      assert (cells + [x])[1..] == cells[1..] + [x];
      JoinSnoc(cells[1..], x);
      assert cells[0] + "," + (Join(cells[1..]) + "," + x) == (cells[0] + "," + Join(cells[1..])) + "," + x;
    }
  }

  /** The text between the commas of `s`, in order. */
  function Split(s: string): (r: seq<string>)
    ensures r != []
    decreases |s|
  {
    match FindChar(s, ',')
    case None => [s]
    case Some(k) => [s[..k]] + Split(s[k + 1..])
  }

  predicate NoComma(cells: seq<string>) {
    forall i :: 0 <= i < |cells| ==> ',' !in cells[i]
  }

  /** In a cell without a comma followed by a comma, the first comma is the one after the cell. */
  lemma {:induction false} FirstComma(c: string, rest: string)
    requires ',' !in c
    ensures FindChar(c + "," + rest, ',') == Some(|c|)
  {
    if c != [] {
      assert (c + "," + rest)[1..] == c[1..] + "," + rest;
      FirstComma(c[1..], rest);
    }
  }

  /** Splitting a line of cells that hold no comma at its commas gives the cells back. */
  lemma {:induction false} SplitJoin(cells: seq<string>)
    requires cells != [] && NoComma(cells)
    ensures Split(Join(cells)) == cells
  {
    if |cells| > 1 {
      var c := cells[0];
      var rest := Join(cells[1..]);
      var s := c + "," + rest;
      assert Join(cells) == s;
      FirstComma(c, rest);
      assert s[..|c|] == c;
      assert s[|c| + 1..] == rest;
      assert Split(s) == [c] + Split(rest);
      assert NoComma(cells[1..]) by {
        forall i | 0 <= i < |cells| - 1
          ensures ',' !in cells[1..][i]
        {
          assert cells[1..][i] == cells[i + 1];
        }
      }
      SplitJoin(cells[1..]);
      assert cells == [c] + cells[1..];
    }
  }

  /******************************** answer rows ********************************/

  /** The cell for one answer: its index when it is a letter, nothing otherwise. */
  function AnswerCell(c: char): string {
    var ai := Chr2Ind(c);
    if ai >= 0 then Decimal(ai) else ""
  }

  /** An answer cell is empty exactly when the answer is not a letter, and otherwise reads back as the letter's index. */
  lemma AnswerCellDecodes(c: char)
    ensures AnswerCell(c) == [] <==> Chr2Ind(c) < 0
    ensures AllDigits(AnswerCell(c)) && ParseDecimal(AnswerCell(c)) == if Chr2Ind(c) < 0 then 0 else Chr2Ind(c)
  {
    if Chr2Ind(c) >= 0 {
      DecimalRoundTrip(Chr2Ind(c));
    }
  }

  function RowCells(row: seq<char>): (r: seq<string>)
    ensures |r| == |row|
  {
    seq(|row|, q requires 0 <= q < |row| => AnswerCell(row[q]))
  }

  /** The line for one student, without its newline. */
  function RowText(row: seq<char>): string {
    Join(RowCells(row))
  }

  /**
   * A student's line splits at its commas into one cell per question, and
   * the cell of question `q` is empty exactly when the answer is not a
   * letter, and otherwise reads back as the answer's index.
   */
  lemma RowRoundTrip(row: seq<char>)
    requires row != []
    ensures |Split(RowText(row))| == |row|
    ensures forall q :: 0 <= q < |row| ==> Split(RowText(row))[q] == AnswerCell(row[q])
    ensures forall q :: 0 <= q < |row| ==> (AnswerCell(row[q]) == [] <==> Chr2Ind(row[q]) < 0)
    ensures forall q :: 0 <= q < |row| && Chr2Ind(row[q]) >= 0 ==> ParseDecimal(AnswerCell(row[q])) == Chr2Ind(row[q])
  {
    var cells := RowCells(row);
    forall i | 0 <= i < |cells|
      ensures ',' !in cells[i]
    {
      AnswerCellDecodes(row[i]);
    }
    SplitJoin(cells);
    forall q | 0 <= q < |row|
      ensures AnswerCell(row[q]) == [] <==> Chr2Ind(row[q]) < 0
      ensures Chr2Ind(row[q]) >= 0 ==> ParseDecimal(AnswerCell(row[q])) == Chr2Ind(row[q])
    {
      AnswerCellDecodes(row[q]);
    }
  }

  /** The loop over the questions of one student. */
  method WriteRow(row: seq<char>) returns (out: string)
    ensures out == RowText(row)
  {
    out := "";
    var qi := 0;
    while qi < |row|
      invariant 0 <= qi <= |row|
      invariant out == Join(RowCells(row[..qi]))
    {
      assert RowCells(row[..qi + 1]) == RowCells(row[..qi]) + [AnswerCell(row[qi])];
      JoinSnoc(RowCells(row[..qi]), AnswerCell(row[qi]));
      if qi > 0 {
        out := out + ",";
      }
      out := out + AnswerCell(row[qi]);
      qi := qi + 1;
    }
    assert row[..qi] == row;
  }

  /********************************* header *********************************/

  /** The header cell of the question numbered `k` from 0: `"k+1. body"`. */
  function HeaderCell(k: nat, body: string): string {
    "\"" + Decimal(k + 1) + ". " + body + "\""
  }

  function HeaderCells(questions: seq<Question>): (r: seq<string>)
    ensures |r| == |questions|
  {
    seq(|questions|, k requires 0 <= k < |questions| => HeaderCell(k, questions[k].body))
  }

  /** The header line without its newline: one cell per question of the library, in file order across zones. */
  function HeaderText(lib: Library): string {
    Join(HeaderCells(AllQuestions(lib.zones)))
  }

  /** The length of the run of digits at the start of `s`. */
  function DigitSpan(s: string): (n: nat)
    ensures n <= |s|
  {
    if s != [] && IsDigit(s[0]) then 1 + DigitSpan(s[1..]) else 0
  }

  lemma {:induction false} DigitSpanPrefix(d: string, rest: string)
    requires AllDigits(d) && rest != [] && !IsDigit(rest[0])
    ensures DigitSpan(d + rest) == |d|
  {
    if d != [] {
      assert (d + rest)[1..] == d[1..] + rest;
      DigitSpanPrefix(d[1..], rest);
    }
  }

  /**
   * Reading a header cell back: drop the quotes, read the number up to the
   * first non-digit, and skip the `. ` after it.
   */
  function ParseHeaderCell(cell: string): Option<(nat, string)> {
    if |cell| < 2 || cell[0] != '"' || cell[|cell| - 1] != '"' then None
    else
      var inner := cell[1..|cell| - 1];
      var n := DigitSpan(inner);
      if n == 0 || !StartsWith(inner[n..], ". ") then None
      else
        DigitSpanDigits(inner);
        Some((ParseDecimal(inner[..n]), inner[n + 2..]))
  }

  lemma {:induction false} DigitSpanDigits(s: string)
    ensures AllDigits(s[..DigitSpan(s)])
  {
    if s != [] && IsDigit(s[0]) {
      DigitSpanDigits(s[1..]);
      assert s[..DigitSpan(s)] == [s[0]] + s[1..][..DigitSpan(s[1..])];
    }
  }

  /** Every header cell reads back as its 1-based question number and the question's body, whatever the body holds. */
  lemma HeaderCellRoundTrip(k: nat, body: string)
    ensures ParseHeaderCell(HeaderCell(k, body)) == Some((k + 1, body))
  {
    var d := Decimal(k + 1);
    var cell := HeaderCell(k, body);
    var inner := cell[1..|cell| - 1];
    assert inner == d + (". " + body);
    DigitSpanPrefix(d, ". " + body);
    assert inner[..|d|] == d;
    assert inner[|d|..] == ". " + body;
    StartsWithSplit(inner[|d|..], ". ");
    assert inner[|d| + 2..] == body;
    DecimalRoundTrip(k + 1);
  }

  /**
   * The header has one cell per question of the library, and the cell of the
   * `k`-th question over all zones reads back as the number `k + 1` and that
   * question's body.
   */
  lemma HeaderNumbering(lib: Library)
    ensures |HeaderCells(AllQuestions(lib.zones))| == |AllQuestions(lib.zones)|
    ensures forall k :: 0 <= k < |AllQuestions(lib.zones)| ==>
      ParseHeaderCell(HeaderCells(AllQuestions(lib.zones))[k]) == Some((k + 1, AllQuestions(lib.zones)[k].body))
  {
    var qs := AllQuestions(lib.zones);
    forall k | 0 <= k < |qs|
      ensures ParseHeaderCell(HeaderCells(qs)[k]) == Some((k + 1, qs[k].body))
    {
      HeaderCellRoundTrip(k, qs[k].body);
    }
  }

  /** The zones up to `zi` hold the questions of the zones before it and then its own. */
  lemma AllQuestionsPrefix(zones: seq<Zone>, zi: nat)
    requires zi < |zones|
    ensures AllQuestions(zones[..zi + 1]) == AllQuestions(zones[..zi]) + zones[zi].questions
  {
    assert zones[..zi + 1][..zi] == zones[..zi];
  }

  /** Writing the header cell of one more question adds a comma and the cell, unless it is the first. */
  lemma HeaderSnoc(done: seq<Question>, q: Question)
    ensures Join(HeaderCells(done + [q])) ==
      (if done == [] then "" else Join(HeaderCells(done)) + ",") + HeaderCell(|done|, q.body)
  {
    assert HeaderCells(done + [q]) == HeaderCells(done) + [HeaderCell(|done|, q.body)];
    JoinSnoc(HeaderCells(done), HeaderCell(|done|, q.body));
  }

  /** The inner loop of the header: the cells of one zone's questions, numbered on from the questions already written. */
  method WriteZoneCells(questions: seq<Question>, ghost done: seq<Question>, qi0: nat, out0: string) returns (qi: nat, out: string)
    requires qi0 == |done| && out0 == Join(HeaderCells(done))
    ensures qi == |done + questions| && out == Join(HeaderCells(done + questions))
  {
    qi, out := qi0, out0;
    var j := 0;
    assert done + questions[..0] == done;
    while j < |questions|
      invariant 0 <= j <= |questions|
      invariant qi == |done + questions[..j]| && out == Join(HeaderCells(done + questions[..j]))
    {
      var question := questions[j];
      HeaderSnoc(done + questions[..j], question);
      if qi > 0 {
        out := out + ",";
      }
      out := out + HeaderCell(qi, question.body);
      qi := qi + 1;
      assert questions[..j + 1] == questions[..j] + [question];
      ConcatAssoc(done, questions[..j], [question]);
      j := j + 1;
    }
    assert questions[..j] == questions;
  }

  /** The header loop: a running question number over the zones and their questions. */
  method WriteHeader(lib: Library) returns (out: string)
    ensures out == HeaderText(lib)
  {
    out := "";
    var qi := 0;
    var zi := 0;
    while zi < |lib.zones|
      invariant 0 <= zi <= |lib.zones|
      invariant qi == |AllQuestions(lib.zones[..zi])| && out == Join(HeaderCells(AllQuestions(lib.zones[..zi])))
    {
      qi, out := WriteZoneCells(lib.zones[zi].questions, AllQuestions(lib.zones[..zi]), qi, out);
      AllQuestionsPrefix(lib.zones, zi);
      zi := zi + 1;
    }
    assert lib.zones[..zi] == lib.zones;
  }

  /********************************* the file *********************************/

  /** The student lines of the file, each followed by a newline. */
  function RowsText(a: seq<seq<char>>): string {
    if a == [] then "" else RowsText(a[..|a| - 1]) + (RowText(a[|a| - 1]) + "\n")
  }

  /** The whole answers file: the header line, then one line per student. */
  function AnswersText(lib: Library, a: seq<seq<char>>): string {
    (HeaderText(lib) + "\n") + RowsText(a)
  }

  /** The lines of the first `si + 1` students are those of the first `si`, then the next one's. */
  lemma RowsTextSnoc(a: seq<seq<char>>, si: nat)
    requires si < |a|
    ensures RowsText(a[..si + 1]) == RowsText(a[..si]) + (RowText(a[si]) + "\n")
  {
    assert a[..si + 1][..si] == a[..si];
  }

  /** `write_answers`, with the file's contents returned instead of written. */
  method WriteAnswers(lib: Library, a: seq<seq<char>>) returns (out: string)
    ensures out == AnswersText(lib, a)
  {
    var header := WriteHeader(lib);
    var first := header + "\n";
    out := first;
    var si := 0;
    while si < |a|
      invariant 0 <= si <= |a|
      invariant out == first + RowsText(a[..si])
    {
      var row := WriteRow(a[si]);
      RowsTextSnoc(a, si);
      ConcatAssoc(first, RowsText(a[..si]), row + "\n");
      out := out + (row + "\n");
      si := si + 1;
    }
    assert a[..si] == a;
  }
}
