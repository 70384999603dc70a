/**
 * What the library reader promises: the transition table of its four
 * states, the tree it builds (zones in the order of their `begin_zone`
 * lines, each question in the zone opened last, the title block joined with
 * newlines), where a refused file fails, and that `end_document` ends the
 * reading.
 *
 * The reference for a whole run is `Trace`: the lines the reader accepts,
 * each paired with the state it is read in, computed from the transition
 * table alone.
 */
module LibraryProperties {
  import opened Outcomes
  import opened Strings
  import opened LineRules
  import opened LibraryReader

  /********************************* table **********************************/

  /** The (state, rule) pairs the reader accepts; every other pair is refused. */
  const AllowedPairs: set<(StateName, RuleName)> := {
    (Preamble, BeginDocument), (Preamble, Text), (Preamble, Blank),
    (TitleBlock, Text), (TitleBlock, Blank), (TitleBlock, BeginZone),
    (InZone, Blank), (InZone, Text), (InZone, RuleName.Question), (InZone, EndZone),
    (BetweenZones, Blank), (BetweenZones, Text), (BetweenZones, BeginZone), (BetweenZones, EndDocument)
  }

  /** The state after an accepted line: only four pairs change the state. */
  function NextState(state: StateName, rule: RuleName): StateName {
    if state == Preamble && rule == BeginDocument then TitleBlock
    else if state == TitleBlock && rule == BeginZone then InZone
    else if state == InZone && rule == EndZone then BetweenZones
    else if state == BetweenZones && rule == BeginZone then InZone
    else state
  }

  /**
   * The state table agrees with the list of allowed pairs: a line is refused
   * exactly when its pair is not allowed, with the rule and the state in the
   * error; only `end_document` between zones stops; an accepted line moves
   * the reader to `NextState`.
   */
  lemma TransitionTable(state: StateName, lib: Library, line: string, m: Line)
    requires Inv(state, lib)
    ensures Dispatch(state, lib, line, m).Fail? <==> (state, m.Rule()) !in AllowedPairs
    ensures Dispatch(state, lib, line, m).Fail? ==> Dispatch(state, lib, line, m).kind == NotAllowed(m.Rule(), state)
    ensures Dispatch(state, lib, line, m).Stop? <==> state == BetweenZones && m.Rule() == EndDocument
    ensures Dispatch(state, lib, line, m).Next? ==> Dispatch(state, lib, line, m).state == NextState(state, m.Rule())
  {
  }

  /** A directive followed by non-blank text is fatal in every state, before the state table is consulted. */
  lemma ExtraTextIsFatal(state: StateName, lib: Library, raw: string)
    requires Inv(state, lib)
    requires NoTail(Match(CleanLine(raw)).Rule()) && !AllSpace(Match(CleanLine(raw)).tail)
    ensures Step(state, lib, CleanLine(raw), Classify(CleanLine(raw)))
      == Fail(ExtraTextAfter(Match(CleanLine(raw)).Rule(), Strip(Match(CleanLine(raw)).tail)))
  {
  }

  /******************************* tree shape *******************************/

  /** The zone titles, in order. */
  function Titles(zones: seq<Zone>): seq<string> {
    if zones == [] then [] else Titles(zones[..|zones| - 1]) + [zones[|zones| - 1].title]
  }

  /** The questions of all zones, zone after zone: the numbering `write_answers` uses. */
  function AllQuestions(zones: seq<Zone>): seq<Question> {
    if zones == [] then [] else AllQuestions(zones[..|zones| - 1]) + zones[|zones| - 1].questions
  }

  /** `new_zone` adds the title at the end and no question. */
  lemma NewZoneShape(lib: Library, title: string)
    ensures Titles(NewZone(lib, title).zones) == Titles(lib.zones) + [Strip(title)]
    ensures AllQuestions(NewZone(lib, title).zones) == AllQuestions(lib.zones)
    ensures NewZone(lib, title).titleBlock == lib.titleBlock
  {
    var zones := NewZone(lib, title).zones;
    assert zones[..|zones| - 1] == lib.zones;
  }

  /**
   * `new_question` puts the question at the end of the zone opened last and
   * changes nothing else: the other zones, every title and the title block
   * stay as they were.
   */
  lemma NewQuestionShape(lib: Library, q: Question)
    requires lib.zones != []
    ensures |NewQuestion(lib, q).zones| == |lib.zones|
    ensures forall k :: 0 <= k < |lib.zones| - 1 ==> NewQuestion(lib, q).zones[k] == lib.zones[k]
    ensures NewQuestion(lib, q).zones[|lib.zones| - 1].questions == lib.zones[|lib.zones| - 1].questions + [q]
    ensures Titles(NewQuestion(lib, q).zones) == Titles(lib.zones)
    ensures AllQuestions(NewQuestion(lib, q).zones) == AllQuestions(lib.zones) + [q]
    ensures NewQuestion(lib, q).titleBlock == lib.titleBlock
  {
    var zones := NewQuestion(lib, q).zones;
    var last := |lib.zones| - 1;
    assert zones[..last] == lib.zones[..last];
  }

  /********************************* traces *********************************/

  /** An accepted line and the state it was read in. */
  type Event = (StateName, Item)

  /**
   * The lines the reader accepts from line `i` on, starting in `state`, each
   * with the state it is read in: up to the first refused line, up to and
   * including an `end_document` between zones, or to the end of the input.
   */
  function Trace(items: seq<Item>, i: nat, state: StateName): (t: seq<Event>)
    requires i <= |items|
    ensures i + |t| <= |items|
    decreases |items| - i
  {
    if i == |items| then []
    else
      match items[i].kind
      case ExtraText(_, _) => []
      case Matched(m) =>
        if (state, m.Rule()) !in AllowedPairs then []
        else if state == BetweenZones && m.Rule() == EndDocument then [(state, items[i])]
        else [(state, items[i])] + Trace(items, i + 1, NextState(state, m.Rule()))
  }

  /** The stripped title of a `begin_zone` event. */
  function EventTitles(e: Event): seq<string> {
    var c := e.1.kind;
    if c.Matched? && c.line.BeginZoneLine? then [Strip(c.line.title)] else []
  }

  /** The question of a `question` event, fields stripped. */
  function EventQuestions(e: Event): seq<Question> {
    var c := e.1.kind;
    if c.Matched? && c.line.QuestionLine? then [QuestionOf(c.line.body, c.line.leftChoice, c.line.rightChoice)] else []
  }

  /** The line of a `text` or `blank` event read in the title block. */
  function EventTitleLines(e: Event): seq<string> {
    if e.0 == TitleBlock && (e.1.kind == Matched(TextLine) || e.1.kind == Matched(BlankLine)) then [e.1.line] else []
  }

  /** The titles of the `begin_zone` lines of a trace, in order. */
  function TraceTitles(t: seq<Event>): seq<string> {
    if t == [] then [] else EventTitles(t[0]) + TraceTitles(t[1..])
  }

  /** The questions of the `question` lines of a trace, in order. */
  function TraceQuestions(t: seq<Event>): seq<Question> {
    if t == [] then [] else EventQuestions(t[0]) + TraceQuestions(t[1..])
  }

  /** The lines of a trace read into the title block, in order. */
  function TraceTitleLines(t: seq<Event>): seq<string> {
    if t == [] then [] else EventTitleLines(t[0]) + TraceTitleLines(t[1..])
  }

  /** The title block after appending each of `lines` in turn. */
  function AppendAll(titleBlock: string, lines: seq<string>): string
    decreases |lines|
  {
    if lines == [] then titleBlock else AppendAll(AppendToTitleBlock(titleBlock, lines[0]), lines[1..])
  }

  /**
   * The zones after one accepted line, built from the line alone: a
   * `begin_zone` line opens a zone with its stripped title and no questions,
   * a `question` line adds its question at the end of the zone opened last,
   * and any other line leaves the zones as they are.
   */
  function AddEvent(zones: seq<Zone>, e: Event): seq<Zone> {
    var c := e.1.kind;
    if c.Matched? && c.line.BeginZoneLine? then zones + [Zone(Strip(c.line.title), [])]
    else if c.Matched? && c.line.QuestionLine? && zones != [] then
      var last := zones[|zones| - 1];
      var q := QuestionOf(c.line.body, c.line.leftChoice, c.line.rightChoice);
      zones[..|zones| - 1] + [Zone(last.title, last.questions + [q])]
    else zones
  }

  /** The zones after the lines of a trace, one after the other. */
  function BuildZones(zones: seq<Zone>, t: seq<Event>): seq<Zone>
    decreases |t|
  {
    if t == [] then zones else BuildZones(AddEvent(zones, t[0]), t[1..])
  }

  /** The zone tree a trace describes, starting from no zones. */
  function TraceZones(t: seq<Event>): seq<Zone> {
    BuildZones([], t)
  }

  /**
   * One line and the trace: a refused line ends the trace before it, the
   * `end_document` that stops the reading is its last event, and any other
   * accepted line is followed by the trace from the state it leads to.
   */
  lemma StepTrace(items: seq<Item>, i: nat, state: StateName, lib: Library)
    requires i < |items| && Inv(state, lib)
    ensures var t := Trace(items, i, state);
      match Step(state, lib, items[i].line, items[i].kind)
      case Fail(_) => t == []
      case Stop => t == [(state, items[i])]
      case Next(state', _) => t == [(state, items[i])] + Trace(items, i + 1, state')
  {
    match items[i].kind
    case ExtraText(_, _) =>
    case Matched(m) => TransitionTable(state, lib, items[i].line, m);
  }

  /** One accepted line and the zone titles: a `begin_zone` line adds its stripped title, any other line none. */
  lemma StepTitles(state: StateName, lib: Library, line: string, c: Classification)
    requires Inv(state, lib)
    ensures var e := (state, Item(line, c));
      match Step(state, lib, line, c)
      case Fail(_) => true
      case Stop => EventTitles(e) == []
      case Next(_, lib') => Titles(lib'.zones) == Titles(lib.zones) + EventTitles(e)
  {
    if c.Matched? {
      var m := c.line;
      if m.QuestionLine? && state == InZone {
        NewQuestionShape(lib, QuestionOf(m.body, m.leftChoice, m.rightChoice));
      } else if m.BeginZoneLine? && (state == TitleBlock || state == BetweenZones) {
        NewZoneShape(lib, m.title);
      } else {
        assert Step(state, lib, line, c).Next? ==> Step(state, lib, line, c).library.zones == lib.zones;
      }
    }
  }

  /** One accepted line and the questions: a `question` line adds its question, any other line none. */
  lemma StepQuestions(state: StateName, lib: Library, line: string, c: Classification)
    requires Inv(state, lib)
    ensures var e := (state, Item(line, c));
      match Step(state, lib, line, c)
      case Fail(_) => true
      case Stop => EventQuestions(e) == []
      case Next(_, lib') => AllQuestions(lib'.zones) == AllQuestions(lib.zones) + EventQuestions(e)
  {
    if c.Matched? {
      var m := c.line;
      if m.QuestionLine? && state == InZone {
        NewQuestionShape(lib, QuestionOf(m.body, m.leftChoice, m.rightChoice));
      } else if m.BeginZoneLine? && (state == TitleBlock || state == BetweenZones) {
        NewZoneShape(lib, m.title);
      } else {
        assert Step(state, lib, line, c).Next? ==> Step(state, lib, line, c).library.zones == lib.zones;
      }
    }
  }

  /** One accepted line and the title block: a text or blank line read in the title block is appended, any other line changes nothing. */
  lemma StepTitleLines(state: StateName, lib: Library, line: string, c: Classification)
    requires Inv(state, lib)
    ensures var e := (state, Item(line, c));
      match Step(state, lib, line, c)
      case Fail(_) => true
      case Stop => EventTitleLines(e) == []
      case Next(_, lib') => lib'.titleBlock == AppendAll(lib.titleBlock, EventTitleLines(e))
  {
    if c == Matched(TextLine) || c == Matched(BlankLine) {
      assert AppendAll(lib.titleBlock, [line]) == AppendToTitleBlock(lib.titleBlock, line);
    }
  }

  /** One accepted line and the zone tree: the reader changes its zones exactly as `AddEvent` does. */
  lemma StepZones(state: StateName, lib: Library, line: string, c: Classification)
    requires Inv(state, lib)
    ensures var e := (state, Item(line, c));
      match Step(state, lib, line, c)
      case Fail(_) => true
      case Stop => AddEvent(lib.zones, e) == lib.zones
      case Next(_, lib') => lib'.zones == AddEvent(lib.zones, e)
  {
    if c.Matched? && c.line.QuestionLine? && state == InZone {
      var zones := lib.zones;
      var last := |zones| - 1;
      var q := QuestionOf(c.line.body, c.line.leftChoice, c.line.rightChoice);
      var z := Zone(zones[last].title, zones[last].questions + [q]);
      assert zones[last := z] == zones[..last] + [z];
    }
  }

  /**
   * A successful run builds the zone tree of its trace: every zone it opens,
   * in order, holds exactly the questions accepted after its `begin_zone`
   * line and before the next one, in order.
   */
  lemma {:induction false} RunZones(items: seq<Item>, i: nat, state: StateName, lib: Library)
    requires i <= |items| && Inv(state, lib)
    requires ReadFrom(items, i, state, lib).Ok?
    ensures ReadFrom(items, i, state, lib).value.zones == BuildZones(lib.zones, Trace(items, i, state))
    decreases |items| - i
  {
    if i < |items| {
      StepTrace(items, i, state, lib);
      StepZones(state, lib, items[i].line, items[i].kind);
      var t := Trace(items, i, state);
      match Step(state, lib, items[i].line, items[i].kind)
      case Stop =>
        assert BuildZones(lib.zones, t) == BuildZones(AddEvent(lib.zones, t[0]), t[1..]);
        assert t[1..] == [];
      case Next(state', lib') =>
        RunZones(items, i + 1, state', lib');
        assert t[1..] == Trace(items, i + 1, state');
      case Fail(_) =>
    }
  }

  /** A successful run builds one zone for each `begin_zone` line it accepts, in order, with the stripped title. */
  lemma {:induction false} RunTitles(items: seq<Item>, i: nat, state: StateName, lib: Library)
    requires i <= |items| && Inv(state, lib)
    requires ReadFrom(items, i, state, lib).Ok?
    ensures Titles(ReadFrom(items, i, state, lib).value.zones) == Titles(lib.zones) + TraceTitles(Trace(items, i, state))
    decreases |items| - i
  {
    if i < |items| {
      StepTrace(items, i, state, lib);
      StepTitles(state, lib, items[i].line, items[i].kind);
      var t := Trace(items, i, state);
      match Step(state, lib, items[i].line, items[i].kind)
      case Stop =>
        assert TraceTitles(t) == EventTitles(t[0]) + TraceTitles([]);
      case Next(state', lib') =>
        RunTitles(items, i + 1, state', lib');
        assert t[1..] == Trace(items, i + 1, state');
        ConcatAssoc(Titles(lib.zones), EventTitles(t[0]), TraceTitles(t[1..]));
      case Fail(_) =>
    }
  }

  /** A successful run adds the question of each `question` line it accepts, in order, across the zones. */
  lemma {:induction false} RunQuestions(items: seq<Item>, i: nat, state: StateName, lib: Library)
    requires i <= |items| && Inv(state, lib)
    requires ReadFrom(items, i, state, lib).Ok?
    ensures AllQuestions(ReadFrom(items, i, state, lib).value.zones) == AllQuestions(lib.zones) + TraceQuestions(Trace(items, i, state))
    decreases |items| - i
  {
    if i < |items| {
      StepTrace(items, i, state, lib);
      StepQuestions(state, lib, items[i].line, items[i].kind);
      var t := Trace(items, i, state);
      match Step(state, lib, items[i].line, items[i].kind)
      case Stop =>
        assert TraceQuestions(t) == EventQuestions(t[0]) + TraceQuestions([]);
      case Next(state', lib') =>
        RunQuestions(items, i + 1, state', lib');
        assert t[1..] == Trace(items, i + 1, state');
        ConcatAssoc(AllQuestions(lib.zones), EventQuestions(t[0]), TraceQuestions(t[1..]));
      case Fail(_) =>
    }
  }

  /** A successful run appends to the title block each line it reads in the title block, in order. */
  lemma {:induction false} RunTitleBlock(items: seq<Item>, i: nat, state: StateName, lib: Library)
    requires i <= |items| && Inv(state, lib)
    requires ReadFrom(items, i, state, lib).Ok?
    ensures ReadFrom(items, i, state, lib).value.titleBlock == AppendAll(lib.titleBlock, TraceTitleLines(Trace(items, i, state)))
    decreases |items| - i
  {
    if i < |items| {
      StepTrace(items, i, state, lib);
      StepTitleLines(state, lib, items[i].line, items[i].kind);
      var t := Trace(items, i, state);
      match Step(state, lib, items[i].line, items[i].kind)
      case Stop =>
        assert TraceTitleLines(t) == EventTitleLines(t[0]) + TraceTitleLines([]);
      case Next(state', lib') =>
        RunTitleBlock(items, i + 1, state', lib');
        assert t[1..] == Trace(items, i + 1, state');
        AppendAllConcat(lib.titleBlock, EventTitleLines(t[0]), TraceTitleLines(t[1..]));
      case Fail(_) =>
    }
  }

  /** Concatenation is associative. */
  lemma ConcatAssoc<T>(a: seq<T>, b: seq<T>, c: seq<T>)
    ensures (a + b) + c == a + (b + c)
  {
  }

  /** Appending two lists of lines one after the other is appending their concatenation. */
  lemma {:induction false} AppendAllConcat(titleBlock: string, xs: seq<string>, ys: seq<string>)
    ensures AppendAll(AppendAll(titleBlock, xs), ys) == AppendAll(titleBlock, xs + ys)
    decreases |xs|
  {
    if xs == [] {
      assert xs + ys == ys;
    } else {
      AppendAllConcat(AppendToTitleBlock(titleBlock, xs[0]), xs[1..], ys);
      assert xs + ys == [xs[0]] + (xs[1..] + ys);
      AppendAllCons(titleBlock, xs[0], xs[1..] + ys);
    }
  }

  /** Appending a first line, then the rest. */
  lemma AppendAllCons(titleBlock: string, x: string, rest: seq<string>)
    ensures AppendAll(titleBlock, [x] + rest) == AppendAll(AppendToTitleBlock(titleBlock, x), rest)
  {
    assert ([x] + rest)[1..] == rest;
  }

  /**
   * Where a run ends: a refused file fails at the first line the trace does
   * not accept, with that line's 1-based number; a run that succeeds has
   * accepted every line, or stopped at an `end_document` between zones.
   */
  lemma {:induction false} RunEnds(items: seq<Item>, i: nat, state: StateName, lib: Library)
    requires i <= |items| && Inv(state, lib)
    ensures var t := Trace(items, i, state);
      ReadFrom(items, i, state, lib).Err? ==>
        i + |t| < |items| && ReadFrom(items, i, state, lib).error.lineNumber == i + |t| + 1
    ensures var t := Trace(items, i, state);
      ReadFrom(items, i, state, lib).Ok? ==>
        i + |t| == |items| || EndsWithStop(t)
    decreases |items| - i
  {
    if i < |items| {
      StepTrace(items, i, state, lib);
      match Step(state, lib, items[i].line, items[i].kind)
      case Next(state', lib') =>
        RunEnds(items, i + 1, state', lib');
        var t := Trace(items, i, state);
        assert t[1..] == Trace(items, i + 1, state');
        if |t| > 1 {
          assert t[|t| - 1] == t[1..][|t| - 2];
        }
      case Stop =>
        TransitionTable(state, lib, items[i].line, items[i].kind.line);
      case Fail(_) =>
    }
  }

  /** The trace ends with the `end_document` line that stops the reading. */
  predicate EndsWithStop(t: seq<Event>) {
    t != [] && t[|t| - 1].0 == BetweenZones && t[|t| - 1].1.kind.Matched? && t[|t| - 1].1.kind.line.EndDocumentLine?
  }

  /** Once `end_document` stops the reading, the lines after it change nothing: any lines may follow. */
  lemma {:induction false} StopIgnoresLaterLines(items: seq<Item>, more: seq<Item>, i: nat, state: StateName, lib: Library)
    requires i <= |items| && Inv(state, lib)
    requires EndsWithStop(Trace(items, i, state))
    ensures ReadFrom(items + more, i, state, lib) == ReadFrom(items, i, state, lib)
    decreases |items| - i
  {
    StepTrace(items, i, state, lib);
    assert (items + more)[i] == items[i];
    match Step(state, lib, items[i].line, items[i].kind)
    case Next(state', lib') =>
      var t := Trace(items, i, state);
      assert t[1..] == Trace(items, i + 1, state');
      TransitionTable(state, lib, items[i].line, items[i].kind.line);
      assert t[1..] != [];
      assert t[|t| - 1] == t[1..][|t| - 2];
      StopIgnoresLaterLines(items, more, i + 1, state', lib');
    case Stop =>
    case Fail(_) =>
  }

  /*************************** the title block ******************************/

  /** `"\n".join(lines)`. */
  function JoinLines(lines: seq<string>): string {
    if lines == [] then "" else lines[0] + NewlineEach(lines[1..])
  }

  /** Each line preceded by a newline, concatenated. */
  function NewlineEach(lines: seq<string>): string {
    if lines == [] then "" else "\n" + lines[0] + NewlineEach(lines[1..])
  }

  /** The lines from the first non-empty one on. */
  function DropLeadingEmpty(lines: seq<string>): (r: seq<string>)
    ensures r == [] || r[0] != []
  {
    if lines != [] && lines[0] == [] then DropLeadingEmpty(lines[1..]) else lines
  }

  /** Once the title block is non-empty, every further line is added after a newline. */
  lemma {:induction false} AppendAllNonEmpty(titleBlock: string, lines: seq<string>)
    requires titleBlock != []
    ensures AppendAll(titleBlock, lines) == titleBlock + NewlineEach(lines)
    decreases |lines|
  {
    if lines != [] {
      AppendAllNonEmpty(titleBlock + "\n" + lines[0], lines[1..]);
    }
  }

  /**
   * The title block is its lines joined by newlines, with no separator in
   * front: empty lines before the first non-empty one leave no trace.
   */
  lemma {:induction false} TitleBlockJoin(lines: seq<string>)
    ensures AppendAll("", lines) == JoinLines(DropLeadingEmpty(lines))
    decreases |lines|
  {
    if lines != [] {
      if lines[0] == [] {
        TitleBlockJoin(lines[1..]);
      } else {
        AppendAllNonEmpty(lines[0], lines[1..]);
      }
    }
  }

  /**
   * A blank line reaches the reader as the empty string: the line is stripped
   * before the comment is cut, so what remains either starts with a
   * non-blank character or is empty.
   */
  lemma BlankLineIsEmpty(raw: string)
    requires Classify(CleanLine(raw)) == Matched(BlankLine)
    ensures CleanLine(raw) == []
  {
    var line := CleanLine(raw);
    MatchFirst(line);
    StripSpec(raw);
  }

  /****************************** whole file ********************************/

  /**
   * `read_library` on a whole file: the zone tree is the one its trace
   * describes, each question in the zone opened most recently; the zones are
   * the `begin_zone` lines the reader accepts, in order and with their titles
   * stripped; the questions,
   * numbered across zones, are its `question` lines in order; the title block
   * is the title-block lines joined by newlines, leading empty lines dropped.
   */
  lemma ReadLibraryBuilds(lines: seq<string>)
    requires ReadLibrarySpec(lines).Ok?
    ensures var t := Trace(Prepared(lines), 0, Preamble);
      var lib := ReadLibrarySpec(lines).value;
      && lib.zones == TraceZones(t)
      && Titles(lib.zones) == TraceTitles(t)
      && AllQuestions(lib.zones) == TraceQuestions(t)
      && lib.titleBlock == JoinLines(DropLeadingEmpty(TraceTitleLines(t)))
  {
    var t := Trace(Prepared(lines), 0, Preamble);
    RunZones(Prepared(lines), 0, Preamble, EmptyLibrary);
    RunTitles(Prepared(lines), 0, Preamble, EmptyLibrary);
    RunQuestions(Prepared(lines), 0, Preamble, EmptyLibrary);
    RunTitleBlock(Prepared(lines), 0, Preamble, EmptyLibrary);
    TitleBlockJoin(TraceTitleLines(t));
  }
}
