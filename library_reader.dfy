/**
 * The question-library reader (`read_library`): every line of the library
 * file is stripped, cut at its first comment and classified; a four-state
 * machine then either extends the library tree, changes state, stops, or
 * refuses the line with a fatal error that carries the 1-based line number.
 *
 * `ReadFrom` is the reader as a function of the classified lines; the class
 * `Reader` and the method `ReadLibrary` are the reader as the program runs
 * it, updating its state and the library under construction line by line,
 * and are proved to compute `ReadFrom`.
 */
module LibraryReader {
  import opened Outcomes
  import opened Strings
  import opened LineRules

  /** A question of the library with its two answer-scale labels. */
  datatype Question = Question(body: string, leftChoice: string, rightChoice: string)

  /** A titled group of questions. */
  datatype Zone = Zone(title: string, questions: seq<Question>)

  /** The text before the first zone, and the zones in file order. */
  datatype Library = Library(titleBlock: string, zones: seq<Zone>)

  /** The library as it is before any line is read. */
  const EmptyLibrary: Library := Library("", [])

  /** The states of the reader: `preamble`, `title_block`, `zone` and `between_zones`. */
  datatype StateName = Preamble | TitleBlock | InZone | BetweenZones

  /** Why a line is refused. */
  datatype ErrorKind =
    | ExtraTextAfter(rule: RuleName, extra: string)  // "invalid extra text following ..."
    | NotAllowed(rule: RuleName, state: StateName)   // "... not allowed in state ..."

  /** A fatal error and the 1-based number of the line that caused it. */
  datatype ReadError = ReadError(lineNumber: nat, kind: ErrorKind)

  /** What one line does to the reader. */
  datatype StepResult =
    | Next(state: StateName, library: Library)
    | Stop
    | Fail(kind: ErrorKind)

  /**
   * The states and libraries the reader can be in between two lines: the
   * library is empty in the preamble, has no zone in the title block, and has
   * a zone to put questions into once a zone has been opened.
   */
  predicate Inv(state: StateName, lib: Library) {
    && (state == Preamble ==> lib == EmptyLibrary)
    && (state == TitleBlock ==> lib.zones == [])
    && (state == InZone || state == BetweenZones ==> lib.zones != [])
  }

  /** The line as the rules see it: stripped, then cut at its first unescaped `%`. */
  function CleanLine(raw: string): string {
    StripComment(Strip(raw))
  }

  /** `append_to_title_block`: a newline goes before the line only once the title block is non-empty. */
  function AppendToTitleBlock(titleBlock: string, line: string): string {
    if |titleBlock| > 0 then titleBlock + "\n" + line else line
  }

  /** `new_zone`: a zone with the stripped title and no questions goes at the end of the library. */
  function NewZone(lib: Library, title: string): (r: Library)
    ensures r.zones != []
  {
    lib.(zones := lib.zones + [Zone(Strip(title), [])])
  }

  /** `new_question`: the question goes at the end of the most recently opened zone, which is the last one. */
  function NewQuestion(lib: Library, q: Question): (r: Library)
    requires lib.zones != []
    ensures r.zones != []
  {
    var last := |lib.zones| - 1;
    lib.(zones := lib.zones[last := lib.zones[last].(questions := lib.zones[last].questions + [q])])
  }

  /** The question a `question` line adds, its three fields stripped. */
  function QuestionOf(body: string, leftChoice: string, rightChoice: string): Question {
    Question.Question(Strip(body), Strip(leftChoice), Strip(rightChoice))
  }

  /** The state table: what a line that passed the extra-text check does in each state. */
  function Dispatch(state: StateName, lib: Library, line: string, m: Line): (r: StepResult)
    requires Inv(state, lib)
    ensures r.Next? ==> Inv(r.state, r.library)
  {
    match state
    case Preamble =>
      (match m
       case BeginDocumentLine(_) => Next(TitleBlock, lib)
       case TextLine => Next(Preamble, lib)
       case BlankLine => Next(Preamble, lib)
       case _ => Fail(NotAllowed(m.Rule(), state)))
    case TitleBlock =>
      (match m
       case TextLine => Next(TitleBlock, lib.(titleBlock := AppendToTitleBlock(lib.titleBlock, line)))
       case BlankLine => Next(TitleBlock, lib.(titleBlock := AppendToTitleBlock(lib.titleBlock, line)))
       case BeginZoneLine(title, _) => Next(InZone, NewZone(lib, title))
       case _ => Fail(NotAllowed(m.Rule(), state)))
    case InZone =>
      (match m
       case BlankLine => Next(InZone, lib)
       case TextLine => Next(InZone, lib)
       case QuestionLine(body, left, right, _) => Next(InZone, NewQuestion(lib, QuestionOf(body, left, right)))
       case EndZoneLine(_) => Next(BetweenZones, lib)
       case _ => Fail(NotAllowed(m.Rule(), state)))
    case BetweenZones =>
      (match m
       case BlankLine => Next(BetweenZones, lib)
       case TextLine => Next(BetweenZones, lib)
       case BeginZoneLine(title, _) => Next(InZone, NewZone(lib, title))
       case EndDocumentLine(_) => Stop
       case _ => Fail(NotAllowed(m.Rule(), state)))
  }

  /** One line: a directive followed by extra text is fatal in every state; any other line goes to the state table. */
  function Step(state: StateName, lib: Library, line: string, c: Classification): (r: StepResult)
    requires Inv(state, lib)
    ensures r.Next? ==> Inv(r.state, r.library)
  {
    match c
    case ExtraText(rule, extra) => Fail(ExtraTextAfter(rule, extra))
    case Matched(m) => Dispatch(state, lib, line, m)
  }

  /** A line of the file after cleaning, with its classification. */
  datatype Item = Item(line: string, kind: Classification)

  /** Cleaning and classifying one line of the file. */
  function Prepare(raw: string): Item {
    var line := CleanLine(raw);
    Item(line, Classify(line))
  }

  /** Every line of the file, cleaned and classified. */
  function Prepared(lines: seq<string>): (items: seq<Item>)
    ensures |items| == |lines|
  {
    seq(|lines|, k requires 0 <= k < |lines| => Prepare(lines[k]))
  }

  /**
   * The reader from line `i` on, in state `state` with library `lib`: the
   * library once the input ends or `end_document` stops the reading, or the
   * first fatal error.
   */
  function ReadFrom(items: seq<Item>, i: nat, state: StateName, lib: Library): (r: Result<Library, ReadError>)
    requires i <= |items| && Inv(state, lib)
    ensures r.Err? ==> i < r.error.lineNumber <= |items|
    decreases |items| - i
  {
    if i == |items| then Ok(lib)
    else
      match Step(state, lib, items[i].line, items[i].kind)
      case Next(state', lib') => ReadFrom(items, i + 1, state', lib')
      case Stop => Ok(lib)
      case Fail(kind) => Err(ReadError(i + 1, kind))
  }

  /** `read_library` on the lines of a file. */
  function ReadLibrarySpec(lines: seq<string>): (r: Result<Library, ReadError>)
    ensures r.Err? ==> 1 <= r.error.lineNumber <= |lines|
  {
    ReadFrom(Prepared(lines), 0, Preamble, EmptyLibrary)
  }

  /** What feeding one line tells the loop of `read_library`. */
  datatype Signal = Continue | Stopped | Failed(kind: ErrorKind)

  /**
   * The reader's state (`ReadState`) together with the library it is
   * building. The zone the program holds in `state.zone` is always the last
   * zone of the library, so it is not kept separately.
   */
  class Reader {
    var state: StateName
    var titleBlock: string
    var zones: seq<Zone>

    /** The library built so far. */
    function Built(): Library
      reads this
    {
      Library(titleBlock, zones)
    }

    predicate Valid()
      reads this
    {
      Inv(state, Built())
    }

    constructor ()
      ensures Valid() && state == Preamble && Built() == EmptyLibrary
    {
      state := Preamble;
      titleBlock := "";
      zones := [];
    }

    /** `transition`: only the state name changes. */
    method Transition(newState: StateName)
      modifies this
      ensures state == newState && Built() == old(Built())
    {
      state := newState;
    }

    /** `new_zone`: opens a zone with the stripped title at the end of the library. */
    method NewZoneHere(title: string)
      modifies this
      ensures state == old(state) && Built() == NewZone(old(Built()), title)
    {
      zones := zones + [Zone(Strip(title), [])];
    }

    /** `new_question`: appends the question to the zone opened last. */
    method NewQuestionHere(q: Question)
      requires zones != []
      modifies this
      ensures state == old(state) && Built() == NewQuestion(old(Built()), q)
    {
      var last := |zones| - 1;
      var zone := zones[last];
      zones := zones[last := zone.(questions := zone.questions + [q])];
    }

    /** `append_to_title_block`. */
    method AppendHere(line: string)
      modifies this
      ensures state == old(state) && zones == old(zones)
      ensures titleBlock == AppendToTitleBlock(old(titleBlock), line)
    {
      if |titleBlock| > 0 {
        titleBlock := titleBlock + "\n";
      }
      titleBlock := titleBlock + line;
    }

    /** The body of the reading loop for one cleaned and classified line. */
    method Feed(line: string, c: Classification) returns (signal: Signal)
      requires Valid()
      modifies this
      ensures Valid()
      ensures match Step(old(state), old(Built()), line, c)
        case Next(state', lib') => signal == Continue && state == state' && Built() == lib'
        case Stop => signal == Stopped && state == old(state) && Built() == old(Built())
        case Fail(kind) => signal == Failed(kind)
    {
      match c
      case ExtraText(rule, extra) =>
        return Failed(ExtraTextAfter(rule, extra));
      case Matched(m) =>
        signal := Continue;
        if state == Preamble {
          if m.BeginDocumentLine? {
            Transition(TitleBlock);
          } else if !(m.TextLine? || m.BlankLine?) {
            signal := Failed(NotAllowed(m.Rule(), state));
          }
        } else if state == TitleBlock {
          if m.TextLine? || m.BlankLine? {
            AppendHere(line);
          } else if m.BeginZoneLine? {
            Transition(InZone);
            NewZoneHere(m.title);
          } else {
            signal := Failed(NotAllowed(m.Rule(), state));
          }
        } else if state == InZone {
          if m.QuestionLine? {
            NewQuestionHere(QuestionOf(m.body, m.leftChoice, m.rightChoice));
          } else if m.EndZoneLine? {
            Transition(BetweenZones);
          } else if !(m.TextLine? || m.BlankLine?) {
            signal := Failed(NotAllowed(m.Rule(), state));
          }
        } else {
          if m.BeginZoneLine? {
            Transition(InZone);
            NewZoneHere(m.title);
          } else if m.EndDocumentLine? {
            signal := Stopped;
          } else if !(m.TextLine? || m.BlankLine?) {
            signal := Failed(NotAllowed(m.Rule(), state));
          }
        }
    }
  }

  /** `read_library`: reads the lines one by one until the input ends, `end_document` stops it, or a line is refused. */
  method ReadLibrary(lines: seq<string>) returns (r: Result<Library, ReadError>)
    ensures r == ReadLibrarySpec(lines)
  {
    var reader := new Reader();
    var i := 0;
    while i < |lines|
      invariant 0 <= i <= |lines| && reader.Valid()
      invariant ReadFrom(Prepared(lines), i, reader.state, reader.Built()) == ReadLibrarySpec(lines)
      decreases |lines| - i
    {
      var line := CleanLine(lines[i]);
      var c := Classify(line);
      assert Prepared(lines)[i] == Item(line, c);
      var signal := reader.Feed(line, c);
      match signal
      case Stopped =>
        return Ok(reader.Built());
      case Failed(kind) =>
        return Err(ReadError(i + 1, kind));
      case Continue =>
      i := i + 1;
    }
    r := Ok(reader.Built());
  }
}
