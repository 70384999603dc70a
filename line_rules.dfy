/**
 * The line classifier of the library reader: comment stripping and the
 * seven ordered rules `begin_document`, `begin_zone`, `question`,
 * `end_zone`, `end_document`, `text` and `blank`. Each regular expression
 * of the reader is written out here as a matcher on the characters of the
 * line. A line never holds a newline (the file is read line by line and
 * each line is stripped), so `.` in the expressions matches every
 * character of the line.
 */
module LineRules {
  import opened Outcomes
  import opened Strings

  /** The rule names, declared in the order the rules are tried. */
  datatype RuleName = BeginDocument | BeginZone | Question | EndZone | EndDocument | Text | Blank

  /** Position of a rule in the list of rules: the first that matches wins. */
  function Rank(rule: RuleName): nat {
    match rule
    case BeginDocument => 0
    case BeginZone => 1
    case Question => 2
    case EndZone => 3
    case EndDocument => 4
    case Text => 5
    case Blank => 6
  }

  /** The five directive rules forbid non-blank text after the directive. */
  predicate NoTail(rule: RuleName) {
    rule != Text && rule != Blank
  }

  /** A classified line: the rule that matched and the groups it captured. */
  datatype Line =
    | BeginDocumentLine(tail: string)
    | BeginZoneLine(title: string, tail: string)
    | QuestionLine(body: string, leftChoice: string, rightChoice: string, tail: string)
    | EndZoneLine(tail: string)
    | EndDocumentLine(tail: string)
    | TextLine
    | BlankLine
  {
    function Rule(): RuleName {
      match this
      case BeginDocumentLine(_) => BeginDocument
      case BeginZoneLine(_, _) => BeginZone
      case QuestionLine(_, _, _, _) => Question
      case EndZoneLine(_) => EndZone
      case EndDocumentLine(_) => EndDocument
      case TextLine => Text
      case BlankLine => Blank
    }
  }

  /******************************** comments ********************************/

  /** A comment starts at `i`: a `%` that is not preceded by a backslash. */
  predicate CommentAt(s: string, i: int) {
    0 <= i < |s| && s[i] == '%' && (i == 0 || s[i - 1] != '\\')
  }

  /** The first comment start at or after `from` (`re.search(r"(?<!\\)%", ...)`). */
  function FindComment(s: string, from: nat): (r: Option<nat>)
    requires from <= |s|
    ensures r.Some? ==> from <= r.value < |s| && CommentAt(s, r.value)
    ensures r.Some? ==> forall k :: from <= k < r.value ==> !CommentAt(s, k)
    ensures r.None? ==> forall k :: from <= k < |s| ==> !CommentAt(s, k)
    decreases |s| - from
  {
    if from == |s| then None
    else if CommentAt(s, from) then Some(from)
    else FindComment(s, from + 1)
  }

  /** The line cut at its first unescaped `%`; an escaped `\%` stays as it is. */
  function StripComment(line: string): (r: string)
    ensures |r| <= |line| && r == line[..|r|]
    ensures forall k :: 0 <= k < |r| ==> !CommentAt(r, k)
    ensures |r| < |line| ==> CommentAt(line, |r|)
  {
    match FindComment(line, 0)
    case None => line
    case Some(i) =>
      var r := line[..i];
      assert forall k :: 0 <= k < |r| ==> (CommentAt(r, k) <==> CommentAt(line, k));
      r
  }

  /** A line without an unescaped `%` is left unchanged. */
  lemma NoCommentUnchanged(line: string)
    requires forall k :: 0 <= k < |line| ==> !CommentAt(line, k)
    ensures StripComment(line) == line
  {
  }

  /** Stripping comments twice is the same as stripping them once. */
  lemma StripCommentIdempotent(line: string)
    ensures StripComment(StripComment(line)) == StripComment(line)
  {
    NoCommentUnchanged(StripComment(line));
  }

  /** The comment is cut off, but the whitespace before it stays. */
  lemma StripCommentExamples()
    ensures StripComment("abc % comment") == "abc "
    ensures StripComment("abc \\% kept") == "abc \\% kept"
    ensures StripComment("% all comment") == ""
  {
    assert CommentAt("abc % comment", 4);
    NoCommentUnchanged("abc \\% kept");
    assert CommentAt("% all comment", 0);
  }

  /******************************* directives *******************************/

  const BeginDocumentDirective: string := "\\begin{document}"
  const BeginZoneDirective: string := "\\begin{zone}{"
  const QuestionDirective: string := "\\question{"
  const EndZoneDirective: string := "\\end{zone}"
  const EndDocumentDirective: string := "\\end{document}"

  /** The text after the directive, when the line is optional leading whitespace, then the directive. */
  function AfterDirective(line: string, directive: string): Option<string> {
    var r := LStrip(line);
    if StartsWith(r, directive) then Some(r[|directive|..]) else None
  }

  /** The directive matches with tail `tail` exactly when the line, without its leading whitespace, is the directive followed by `tail`. */
  lemma AfterDirectiveShape(line: string, directive: string, tail: string)
    ensures AfterDirective(line, directive) == Some(tail) <==> LStrip(line) == directive + tail
  {
    var r := LStrip(line);
    StartsWithSplit(r, directive);
    if r == directive + tail {
      assert r[|directive|..] == tail;
    }
  }

  /** The index of the first `}` in `s` at or after `i`, if any. */
  function BraceFrom(s: string, i: nat): (r: Option<nat>)
    requires i <= |s|
    ensures r.Some? ==> i <= r.value < |s| && s[r.value] == '}'
    ensures r.Some? ==> forall k :: i <= k < r.value ==> s[k] != '}'
    ensures r.None? ==> forall k :: i <= k < |s| ==> s[k] != '}'
    decreases |s| - i
  {
    if i == |s| then None
    else if s[i] == '}' then Some(i)
    else BraceFrom(s, i + 1)
  }

  /** A `}` at `k` with none from `i` up to `k` is the one `BraceFrom` finds. */
  lemma BraceFromFirst(s: string, i: nat, k: nat)
    requires i <= k < |s| && s[k] == '}'
    requires forall j :: i <= j < k ==> s[j] != '}'
    ensures BraceFrom(s, i) == Some(k)
  {
  }

  /** `s` split at its first `}`, into the text before it and the text after it. */
  function SplitAtBrace(s: string): Option<(string, string)> {
    match BraceFrom(s, 0)
    case None => None
    case Some(k) => Some((s[..k], s[k + 1..]))
  }

  /** `s` splits into `a` and `b` exactly when it is `a`, a `}` and `b`, with no `}` in `a`. */
  lemma SplitAtBraceShape(s: string, a: string, b: string)
    ensures SplitAtBrace(s) == Some((a, b)) <==> s == a + ("}" + b) && '}' !in a
  {
    match BraceFrom(s, 0)
    case None =>
      assert (a + ("}" + b))[|a|] == '}';
    case Some(k) =>
      assert s == s[..k] + ("}" + s[k + 1..]);
      assert forall j :: 0 <= j < k ==> s[..k][j] != '}';
      if s == a + ("}" + b) && '}' !in a {
        assert s[|a|] == '}';
        assert forall j :: 0 <= j < |a| ==> s[j] == a[j];
        BraceFromFirst(s, 0, |a|);
        assert s[..|a|] == a;
        assert s[|a| + 1..] == b;
      }
  }

  /** The groups of the `begin_zone` rule. */
  datatype ZoneFields = ZoneFields(title: string, tail: string)

  /** The `begin_zone` rule: the zone directive, a non-empty title without `}`, a `}`, and the tail. */
  function MatchBeginZone(line: string): (r: Option<ZoneFields>)
    ensures r.Some? ==> r.value.title != []
  {
    match AfterDirective(line, BeginZoneDirective)
    case None => None
    case Some(rest) =>
      match SplitAtBrace(rest)
      case None => None
      case Some((title, tail)) => if title == [] then None else Some(ZoneFields(title, tail))
  }

  /**
   * The `begin_zone` rule captures `title` and `tail` exactly when the line
   * is `\begin{zone}{title}tail` with a non-empty title free of `}`.
   */
  lemma BeginZoneShape(line: string, title: string, tail: string)
    ensures MatchBeginZone(line) == Some(ZoneFields(title, tail)) <==>
      AfterDirective(line, BeginZoneDirective) == Some(title + ("}" + tail)) && title != [] && '}' !in title
  {
    match AfterDirective(line, BeginZoneDirective)
    case None =>
    case Some(rest) => SplitAtBraceShape(rest, title, tail);
  }

  /** The groups of the `question` rule. */
  datatype QuestionFields = QuestionFields(body: string, leftChoice: string, rightChoice: string, tail: string)

  /** The text after the question body: `}{left}{right}tail`. */
  function ChoicesText(left: string, right: string, tail: string): string {
    "}" + ("{" + (left + ("}" + ("{" + (right + ("}" + tail))))))
  }

  /** The question text `body}{left}{right}tail` split into its groups. */
  function QuestionText(f: QuestionFields): string {
    f.body + ChoicesText(f.leftChoice, f.rightChoice, f.tail)
  }

  /**
   * The two choices at the start of `u`: `}{`, the left choice up to the
   * next `}`, `{`, the right choice up to the next `}`, and the tail.
   */
  function ChoicesAt(u: string): Option<(string, string, string)> {
    if |u| < 2 || u[0] != '}' || u[1] != '{' then None
    else
      match BraceFrom(u, 2)
      case None => None
      case Some(p) =>
        if p + 2 > |u| || u[p + 1] != '{' then None
        else
          match BraceFrom(u, p + 2)
          case None => None
          case Some(q) => Some((u[2..p], u[p + 2..q], u[q + 1..]))
  }

  /** The fields of a question line when the body takes exactly the first `b` characters of `rest`. */
  function QuestionAt(rest: string, b: nat): (r: Option<QuestionFields>)
    requires b <= |rest|
    ensures r.Some? ==> |r.value.body| == b
  {
    match ChoicesAt(rest[b..])
    case None => None
    case Some((left, right, tail)) => Some(QuestionFields(rest[..b], left, right, tail))
  }

  /** `s` is its first `i` characters followed by the rest. */
  lemma TakeDrop(s: string, i: nat)
    requires i <= |s|
    ensures s == s[..i] + s[i..]
  {
  }

  /** Slicing a suffix of `s` is slicing `s` itself. */
  lemma DropSlices(s: string, i: nat, j: nat)
    requires i + j <= |s|
    ensures s[i..][j..] == s[i + j..] && s[i..][..j] == s[i..i + j]
  {
  }

  /** If the suffix of `s` from `i` is `c` followed by `y`, then `s[i]` is `c` and `y` is the suffix from `i + 1`. */
  lemma ConsAt(s: string, i: nat, c: char, y: string)
    requires i <= |s| && s[i..] == [c] + y
    ensures i < |s| && s[i] == c && s[i + 1..] == y
  {
    assert s[i..][0] == c;
    DropSlices(s, i, 1);
  }

  /** If the suffix of `s` from `i` is `a`, a `}` and `y`, with no `}` in `a`, the first `}` from `i` ends `a`. */
  lemma BraceAfter(s: string, i: nat, a: string, y: string)
    requires i <= |s| && s[i..] == a + ("}" + y) && '}' !in a
    ensures BraceFrom(s, i) == Some(i + |a|)
    ensures s[i..i + |a|] == a && s[i + |a| + 1..] == y
  {
    DropSlices(s, i, |a|);
    DropSlices(s, i, |a| + 1);
    assert s[i..][|a|] == '}';
    forall j | i <= j < i + |a|
      ensures s[j] != '}'
    {
      assert s[j] == s[i..][j - i] == a[j - i];
    }
    BraceFromFirst(s, i, i + |a|);
    assert s[i..][..|a|] == a;
    assert s[i..][|a| + 1..] == y;
  }

  /** What `ChoicesAt` captures, put back together, is the text it came from; neither choice holds a `}`. */
  lemma ChoicesSound(u: string)
    ensures ChoicesAt(u).Some? ==> ChoicesText(ChoicesAt(u).value.0, ChoicesAt(u).value.1, ChoicesAt(u).value.2) == u
    ensures ChoicesAt(u).Some? ==> '}' !in ChoicesAt(u).value.0 && '}' !in ChoicesAt(u).value.1
  {
    if ChoicesAt(u).Some? {
      var p := BraceFrom(u, 2).value;
      var q := BraceFrom(u, p + 2).value;
      assert ChoicesAt(u) == Some((u[2..p], u[p + 2..q], u[q + 1..]));
      Reassemble(u, p, q);
      NoBraceSlice(u, 2, p);
      NoBraceSlice(u, p + 2, q);
    }
  }

  /** A stretch of `s` without `}` gives a slice without `}`. */
  lemma NoBraceSlice(s: string, i: nat, j: nat)
    requires i <= j <= |s|
    requires forall k :: i <= k < j ==> s[k] != '}'
    ensures '}' !in s[i..j]
  {
    assert forall k :: 0 <= k < j - i ==> s[i..j][k] == s[k + i];
  }

  /** Cutting `u` at the braces in positions 0, 1, `p`, `p + 1` and `q` and putting the pieces back gives `u`. */
  lemma Reassemble(u: string, p: nat, q: nat)
    requires 2 <= p && p + 2 <= q < |u|
    requires u[0] == '}' && u[1] == '{' && u[p] == '}' && u[p + 1] == '{' && u[q] == '}'
    ensures ChoicesText(u[2..p], u[p + 2..q], u[q + 1..]) == u
  {
    DropSplit(u, p + 2, q);
    DropSplit(u, 2, p);
    var fromRight := u[p + 2..q] + ("}" + u[q + 1..]);
    ConsFrom(u, q);
    assert u[p + 2..] == fromRight;
    ConsFrom(u, p);
    ConsFrom(u, p + 1);
    var fromLeft := u[2..p] + ("}" + ("{" + fromRight));
    assert u[2..] == fromLeft;
    ConsFrom(u, 0);
    ConsFrom(u, 1);
  }

  /** The suffix from `i` is the characters from `i` to `j` followed by the suffix from `j`. */
  lemma DropSplit(s: string, i: nat, j: nat)
    requires i <= j <= |s|
    ensures s[i..] == s[i..j] + s[j..]
  {
  }

  /** The suffix from `i` is its first character followed by the suffix from `i + 1`. */
  lemma ConsFrom(s: string, i: nat)
    requires i < |s|
    ensures s[i..] == [s[i]] + s[i + 1..]
  {
  }

  /** Every text of the choices shape is captured by `ChoicesAt`, with exactly these groups. */
  lemma ChoicesComplete(left: string, right: string, tail: string)
    requires '}' !in left && '}' !in right
    ensures ChoicesAt(ChoicesText(left, right, tail)) == Some((left, right, tail))
  {
    var u := ChoicesText(left, right, tail);
    LeftChoiceAt(u, left, "{" + (right + ("}" + tail)));
    RightChoiceAt(u, 2 + |left|, right, tail);
  }

  /** The opening `}{` and the left choice, up to the `}` that closes it. */
  lemma LeftChoiceAt(u: string, left: string, w: string)
    requires u == "}" + ("{" + (left + ("}" + w))) && '}' !in left
    ensures 2 <= |u| && u[0] == '}' && u[1] == '{'
    ensures BraceFrom(u, 2) == Some(2 + |left|)
    ensures u[2..2 + |left|] == left && u[3 + |left|..] == w
  {
    ConsAt(u, 0, '}', "{" + (left + ("}" + w)));
    ConsAt(u, 1, '{', left + ("}" + w));
    BraceAfter(u, 2, left, w);
  }

  /** The right choice and the tail, found after the `}` at `p` that closes the left choice. */
  lemma RightChoiceAt(u: string, p: nat, right: string, tail: string)
    requires p + 1 <= |u| && u[p + 1..] == "{" + (right + ("}" + tail)) && '}' !in right
    ensures p + 2 <= |u| && u[p + 1] == '{'
    ensures BraceFrom(u, p + 2) == Some(p + 2 + |right|)
    ensures u[p + 2..p + 2 + |right|] == right && u[p + 3 + |right|..] == tail
  {
    ConsAt(u, p + 1, '{', right + ("}" + tail));
    BraceAfter(u, p + 2, right, tail);
  }

  /** What `QuestionAt` finds is a split of `rest` into the question shape. */
  lemma QuestionAtSound(rest: string, b: nat)
    requires b <= |rest|
    ensures QuestionAt(rest, b).Some? ==> QuestionText(QuestionAt(rest, b).value) == rest
    ensures QuestionAt(rest, b).Some? ==>
      '}' !in QuestionAt(rest, b).value.leftChoice && '}' !in QuestionAt(rest, b).value.rightChoice
  {
    ChoicesSound(rest[b..]);
    TakeDrop(rest, b);
  }

  /** Every split of `rest` into the question shape is the one `QuestionAt` finds at its body length. */
  lemma QuestionAtComplete(f: QuestionFields)
    requires '}' !in f.leftChoice && '}' !in f.rightChoice
    ensures QuestionAt(QuestionText(f), |f.body|) == Some(f)
  {
    var rest := QuestionText(f);
    var u := ChoicesText(f.leftChoice, f.rightChoice, f.tail);
    assert rest[|f.body|..] == u;
    assert rest[..|f.body|] == f.body;
    ChoicesComplete(f.leftChoice, f.rightChoice, f.tail);
  }

  /** The groups for each body length that fits `rest`; lengths beyond `rest` never fit. */
  function BodyFits(rest: string): nat -> Option<QuestionFields> {
    (b: nat) => if b <= |rest| then QuestionAt(rest, b) else None
  }

  /**
   * A greedy body: try the lengths `b`, `b - 1`, ..., 0 and keep the first
   * one for which `at` gives a value, with that value.
   */
  function LastFit<T>(at: nat -> Option<T>, b: nat): (r: Option<(nat, T)>)
    ensures r.Some? ==> r.value.0 <= b && at(r.value.0) == Some(r.value.1)
    decreases b
  {
    match at(b)
    case Some(x) => Some((b, x))
    case None => if b == 0 then None else LastFit(at, b - 1)
  }

  /** The search keeps the longest length that fits: no length it skipped fits, and it fails only when none fits. */
  lemma {:induction false} LastFitGreedy<T>(at: nat -> Option<T>, b: nat)
    ensures LastFit(at, b).Some? ==> forall b' :: LastFit(at, b).value.0 < b' <= b ==> at(b').None?
    ensures LastFit(at, b).None? ==> forall b': nat :: b' <= b ==> at(b').None?
    decreases b
  {
    if at(b).None? && b > 0 {
      LastFitGreedy(at, b - 1);
    }
  }

  /**
   * The `question` rule: the question directive, then the longest body
   * after which two choices without `}` follow, each in braces, and the tail.
   */
  function MatchQuestion(line: string): Option<QuestionFields> {
    match AfterDirective(line, QuestionDirective)
    case None => None
    case Some(rest) =>
      match LastFit(BodyFits(rest), |rest|)
      case None => None
      case Some((_, f)) => Some(f)
  }

  /** What the `question` rule captures is a split of the line into the question shape. */
  lemma QuestionSound(line: string)
    ensures MatchQuestion(line).Some? ==>
      AfterDirective(line, QuestionDirective) == Some(QuestionText(MatchQuestion(line).value))
    ensures MatchQuestion(line).Some? ==>
      '}' !in MatchQuestion(line).value.leftChoice && '}' !in MatchQuestion(line).value.rightChoice
  {
    if MatchQuestion(line).Some? {
      var rest := AfterDirective(line, QuestionDirective).value;
      var b := LastFit(BodyFits(rest), |rest|).value.0;
      assert b <= |rest|;
      QuestionAtSound(rest, b);
    }
  }

  /**
   * The greedy match: a line of the question shape always matches, and no
   * split of it has a longer body than the one matched.
   */
  lemma QuestionLongestBody(line: string, f: QuestionFields)
    requires AfterDirective(line, QuestionDirective) == Some(QuestionText(f))
    requires '}' !in f.leftChoice && '}' !in f.rightChoice
    ensures MatchQuestion(line).Some? && |f.body| <= |MatchQuestion(line).value.body|
  {
    var rest := QuestionText(f);
    QuestionAtComplete(f);
    LastFitGreedy(BodyFits(rest), |rest|);
    assert BodyFits(rest)(|f.body|) == Some(f);
  }

  /****************************** classification ****************************/

  /** The regular expression of one rule applied to the whole line: the groups it captures, if it matches. */
  function RuleMatch(rule: RuleName, line: string): Option<Line> {
    match rule
    case BeginDocument =>
      (match AfterDirective(line, BeginDocumentDirective)
       case None => None
       case Some(tail) => Some(BeginDocumentLine(tail)))
    case BeginZone =>
      (match MatchBeginZone(line)
       case None => None
       case Some(z) => Some(BeginZoneLine(z.title, z.tail)))
    case Question =>
      (match MatchQuestion(line)
       case None => None
       case Some(q) => Some(QuestionLine(q.body, q.leftChoice, q.rightChoice, q.tail)))
    case EndZone =>
      (match AfterDirective(line, EndZoneDirective)
       case None => None
       case Some(tail) => Some(EndZoneLine(tail)))
    case EndDocument =>
      (match AfterDirective(line, EndDocumentDirective)
       case None => None
       case Some(tail) => Some(EndDocumentLine(tail)))
    case Text => if AllSpace(line) then None else Some(TextLine)
    case Blank => if AllSpace(line) then Some(BlankLine) else None
  }

  /** A rule that matches produces a line classified under that rule. */
  lemma RuleMatchRule(rule: RuleName, line: string)
    ensures RuleMatch(rule, line).Some? ==> RuleMatch(rule, line).value.Rule() == rule
  {
    if rule == Question {
      QuestionRuleMatch(line);
    }
  }

  /** The `question` rule produces question lines. */
  lemma QuestionRuleMatch(line: string)
    ensures RuleMatch(Question, line).Some? ==> RuleMatch(Question, line).value.QuestionLine?
  {
  }

  /**
   * The classification of a line before its tail is checked: the groups of
   * the first rule that matches. One of `text` and `blank` matches every
   * line, so some rule always does.
   */
  function Match(line: string): Line {
    match RuleMatch(BeginDocument, line)
    case Some(m) => m
    case None =>
      match RuleMatch(BeginZone, line)
      case Some(m) => m
      case None =>
        match RuleMatch(Question, line)
        case Some(m) => m
        case None =>
          match RuleMatch(EndZone, line)
          case Some(m) => m
          case None =>
            match RuleMatch(EndDocument, line)
            case Some(m) => m
            case None => if AllSpace(line) then BlankLine else TextLine
  }

  /**
   * First match wins: the rule of `Match(line)` matches the line with exactly
   * the groups `Match(line)` holds, and every rule tried before it does not
   * match.
   */
  lemma MatchFirst(line: string)
    ensures RuleMatch(Match(line).Rule(), line) == Some(Match(line))
    ensures forall rule :: Rank(rule) < Rank(Match(line).Rule()) ==> RuleMatch(rule, line).None?
  {
    QuestionRuleMatch(line);
  }

  /** The outcome of classifying a line: a match, or a directive followed by extra text. */
  datatype Classification = Matched(line: Line) | ExtraText(rule: RuleName, extra: string)

  /** The classifier: the first matching rule, refused when it is a directive followed by non-blank text. */
  function Classify(line: string): (r: Classification)
    ensures r.ExtraText? <==> NoTail(Match(line).Rule()) && !AllSpace(Match(line).tail)
    ensures r.ExtraText? ==> r.rule == Match(line).Rule() && r.extra == Strip(Match(line).tail)
    ensures r.ExtraText? ==> r.extra != [] && !IsSpace(r.extra[0])
    ensures r.Matched? ==> r.line == Match(line)
  {
    var m := Match(line);
    StripSpec(if NoTail(m.Rule()) then m.tail else []);
    if NoTail(m.Rule()) && Strip(m.tail) != [] then ExtraText(m.Rule(), Strip(m.tail))
    else Matched(m)
  }
}
