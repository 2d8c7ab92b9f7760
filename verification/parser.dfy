/**
 * The transcript draft parser: one pass over the draft's lines that splits it into seven
 * fixed sections on `[NAME]` header lines, decodes the TODOS section's pipe-delimited lines,
 * collects issues and scores the result.
 *
 * Each pass is specified by a function folded over the lines from the end (`SplitSections`,
 * `MissingIssues`, `DecodeTodos`); `ParseDraft` runs the passes as loops and is proved to
 * return `Parse(input)`.
 */
module TranscriptParser {
  import opened Wrappers
  import opened Text

  /** `SectionName`: the seven section names a draft must contain. */
  datatype SectionName = SUMMARY | TIMELINE | TODOS | DECISIONS | MONEY | IDEAS | QUESTIONS

  /** The names in the order the source lists them (and reports missing sections). */
  const REQUIRED_SECTIONS: seq<SectionName> := [SUMMARY, TIMELINE, TODOS, DECISIONS, MONEY, IDEAS, QUESTIONS]

  /** The text of a section name, as it appears between the brackets of its header. */
  function Name(s: SectionName): string {
    match s
    case SUMMARY => "SUMMARY"
    case TIMELINE => "TIMELINE"
    case TODOS => "TODOS"
    case DECISIONS => "DECISIONS"
    case MONEY => "MONEY"
    case IDEAS => "IDEAS"
    case QUESTIONS => "QUESTIONS"
  }

  /** `REQUIRED_SECTIONS.includes(key)`: the section whose name is `key`, if any. */
  function RequiredSection(key: string): (r: Option<SectionName>)
    ensures r.Some? ==> Name(r.value) == key
    ensures r.None? ==> forall s :: Name(s) != key
  {
    if key == "SUMMARY" then Some(SUMMARY)
    else if key == "TIMELINE" then Some(TIMELINE)
    else if key == "TODOS" then Some(TODOS)
    else if key == "DECISIONS" then Some(DECISIONS)
    else if key == "MONEY" then Some(MONEY)
    else if key == "IDEAS" then Some(IDEAS)
    else if key == "QUESTIONS" then Some(QUESTIONS)
    else None
  }

  const UNKNOWN_SECTION := "UNKNOWN_SECTION"
  const MISSING_REQUIRED_SECTION := "MISSING_REQUIRED_SECTION"
  const TODO_FIELD_COUNT := "TODO_FIELD_COUNT"
  const TODO_LINE_FORMAT := "Use: title|horizon|energy|context|money_cost|domain|responsible|due_date|notes"

  /** The `section` of an issue: a section name or `"GLOBAL"`. */
  datatype IssueSection = GLOBAL | InSection(name: SectionName)

  /** An issue; an absent `suggestion` or `critical` is `None`. */
  datatype ParseIssue = ParseIssue(
    line: nat,
    section: IssueSection,
    code: string,
    message: string,
    suggestion: Option<string>,
    critical: Option<bool>)

  /** `issues.filter((i) => i.critical)` keeps exactly the issues whose flag is present and true. */
  predicate IsCritical(issue: ParseIssue) {
    issue.critical == Some(true)
  }

  datatype TodoFields = TodoFields(
    title: string,
    horizon: string,
    energy: string,
    context: string,
    moneyCost: string,
    domain: string,
    responsible: string,
    dueDate: string,
    notes: string)

  datatype ParsedTodoLine = ParsedTodoLine(raw: string, fields: TodoFields)

  datatype ParserConfidenceReport = ParserConfidenceReport(score: int, globalCritical: bool)

  datatype ParsedDraftSections = ParsedDraftSections(
    sections: map<SectionName, seq<string>>,
    todos: seq<ParsedTodoLine>,
    issues: seq<ParseIssue>,
    confidence: ParserConfidenceReport)

  // ---------------------------------------------------------------- enum fields

  /** `normalizeEnum`: the trimmed value in lower case, or `fallback` when the trimmed value is empty. */
  function NormalizeEnum(value: string, fallback: string): (r: string)
    ensures Trim(value) == [] ==> r == fallback
    ensures Trim(value) != [] ==>
      |r| == |Trim(value)| && forall i :: 0 <= i < |r| ==> r[i] == LowerChar(Trim(value)[i])
  {
    var v := Lower(Trim(value));
    if |v| > 0 then v else fallback
  }

  // ---------------------------------------------------------------- section splitting

  predicate IsUpperWord(s: string) {
    forall i :: 0 <= i < |s| ==> IsUpper(s[i])
  }

  /** The bracketed name when the trimmed line matches `^\[([A-Z]+)\]$`. */
  function HeaderName(line: string): Option<string> {
    var t := Trim(line);
    if |t| >= 3 && t[0] == '[' && t[|t| - 1] == ']' && IsUpperWord(t[1..|t| - 1])
    then Some(t[1..|t| - 1])
    else None
  }

  /** The initial `sections` record: every required name, each with an empty body. */
  function EmptySections(): (sections: map<SectionName, seq<string>>)
    ensures forall s :: s in sections && sections[s] == []
  {
    AllSectionsRequired();
    map s | s in REQUIRED_SECTIONS :: []
  }

  /** `REQUIRED_SECTIONS` lists every section name. */
  lemma AllSectionsRequired()
    ensures forall s: SectionName :: s in REQUIRED_SECTIONS
  {
    forall s: SectionName ensures s in REQUIRED_SECTIONS {
      var i := match s
        case SUMMARY => 0 case TIMELINE => 1 case TODOS => 2 case DECISIONS => 3
        case MONEY => 4 case IDEAS => 5 case QUESTIONS => 6;
      assert REQUIRED_SECTIONS[i] == s;
    }
  }

  function UnknownSectionIssue(lineNo: nat, name: string): ParseIssue {
    ParseIssue(lineNo, GLOBAL, UNKNOWN_SECTION, "Unknown section [" + name + "]", None, None)
  }

  /** State of the splitting pass: the bodies so far, the current section, the issues so far. */
  datatype SplitState = SplitState(
    sections: map<SectionName, seq<string>>,
    current: Option<SectionName>,
    issues: seq<ParseIssue>)

  /** Every section has a body. */
  ghost predicate WellFormed(st: SplitState) {
    forall s :: s in st.sections
  }

  const INITIAL_SPLIT := SplitState(EmptySections(), None, [])

  /** One iteration of the splitting `forEach`, for `line` at 1-based document line `lineNo`. */
  function SplitStep(st: SplitState, line: string, lineNo: nat): (next: SplitState)
    requires WellFormed(st)
    ensures WellFormed(next)
  {
    var header := HeaderName(line);
    if header.Some? then
      var section := RequiredSection(header.value);
      if section.Some? then st.(current := section)
      else st.(issues := st.issues + [UnknownSectionIssue(lineNo, header.value)])
    else
      if st.current.Some? then
        st.(sections := st.sections[st.current.value := st.sections[st.current.value] + [line]])
      else st
  }

  /** The splitting pass run from `st` over `lines`, whose first line has number `base + 1`. */
  function Run(st: SplitState, lines: seq<string>, base: nat): (r: SplitState)
    requires WellFormed(st)
    ensures WellFormed(r)
    decreases |lines|
  {
    if lines == [] then st
    else SplitStep(Run(st, lines[..|lines| - 1], base), lines[|lines| - 1], base + |lines|)
  }

  function SplitSections(lines: seq<string>): (r: SplitState)
    ensures WellFormed(r)
  {
    Run(INITIAL_SPLIT, lines, 0)
  }

  lemma SplitSectionsSnoc(lines: seq<string>, i: nat)
    requires i < |lines|
    ensures SplitSections(lines[..i + 1]) == SplitStep(SplitSections(lines[..i]), lines[i], i + 1)
  {
    assert lines[..i + 1][..i] == lines[..i];
  }

  // ---------------------------------------------------------------- missing sections

  function MissingSectionIssue(section: SectionName): ParseIssue {
    ParseIssue(0, InSection(section), MISSING_REQUIRED_SECTION,
      "Missing required section [" + Name(section) + "]",
      Some("Add [" + Name(section) + "] with content."), Some(true))
  }

  /** `sections[section].join("\n").trim().length === 0`. */
  predicate IsMissing(body: seq<string>) {
    Trim(Join(body, "\n")) == []
  }

  /** The issues of the `for (const section of REQUIRED_SECTIONS)` loop, over the names `names`: at most one per name. */
  function MissingIssues(sections: map<SectionName, seq<string>>, names: seq<SectionName>): (issues: seq<ParseIssue>)
    requires forall s :: s in sections
    ensures |issues| <= |names|
    decreases |names|
  {
    if names == [] then []
    else
      var name := names[|names| - 1];
      MissingIssues(sections, names[..|names| - 1])
        + (if IsMissing(sections[name]) then [MissingSectionIssue(name)] else [])
  }

  lemma MissingIssuesSnoc(sections: map<SectionName, seq<string>>, names: seq<SectionName>, k: nat)
    requires forall s :: s in sections
    requires k < |names|
    ensures MissingIssues(sections, names[..k + 1])
      == MissingIssues(sections, names[..k])
         + (if IsMissing(sections[names[k]]) then [MissingSectionIssue(names[k])] else [])
  {
    assert names[..k + 1][..k] == names[..k];
  }

  // ---------------------------------------------------------------- todo lines

  /** `line.split("|").map((x) => x.trim())`. */
  function TrimmedParts(line: string): (parts: seq<string>)
    ensures |parts| == Count(line, '|') + 1
  {
    var raw := Split(line, '|');
    seq(|raw|, k requires 0 <= k < |raw| => Trim(raw[k]))
  }

  /** The record pushed for a line of nine parts. */
  function TodoFromParts(raw: string, parts: seq<string>): ParsedTodoLine
    requires |parts| == 9
  {
    ParsedTodoLine(raw, TodoFields(
      parts[0],
      NormalizeEnum(parts[1], "later"),
      NormalizeEnum(parts[2], "low"),
      NormalizeEnum(parts[3], "online"),
      NormalizeEnum(parts[4], "none"),
      parts[5], parts[6], parts[7], parts[8]))
  }

  function FieldCountIssue(lineNo: nat, partCount: nat): ParseIssue {
    ParseIssue(lineNo, InSection(TODOS), TODO_FIELD_COUNT,
      "Expected 9 fields (8 pipes), got " + NatToString(partCount),
      Some(TODO_LINE_FORMAT), None)
  }

  datatype TodoScan = TodoScan(todos: seq<ParsedTodoLine>, issues: seq<ParseIssue>)

  /**
   * The todos and issues of the TODOS `forEach`; an issue's line is its index in the section plus
   * one. Each line gives at most one todo or one issue.
   */
  function DecodeTodos(lines: seq<string>): (scan: TodoScan)
    ensures |scan.todos| + |scan.issues| <= |lines|
    decreases |lines|
  {
    if lines == [] then TodoScan([], [])
    else TodoStep(DecodeTodos(lines[..|lines| - 1]), lines[|lines| - 1], |lines|)
  }

  /** One iteration of the TODOS `forEach`, for `line` at index `lineNo - 1` of the section. */
  function TodoStep(prev: TodoScan, line: string, lineNo: nat): TodoScan {
    if Trim(line) == [] then prev
    else
      var parts := TrimmedParts(line);
      if |parts| != 9 then prev.(issues := prev.issues + [FieldCountIssue(lineNo, |parts|)])
      else prev.(todos := prev.todos + [TodoFromParts(line, parts)])
  }

  lemma DecodeTodosSnoc(lines: seq<string>, j: nat)
    requires j < |lines|
    ensures DecodeTodos(lines[..j + 1]) == TodoStep(DecodeTodos(lines[..j]), lines[j], j + 1)
  {
    assert lines[..j + 1][..j] == lines[..j];
  }

  // ---------------------------------------------------------------- confidence

  function CriticalCount(issues: seq<ParseIssue>): (n: nat)
    ensures n <= |issues|
    ensures n == 0 <==> forall k :: 0 <= k < |issues| ==> !IsCritical(issues[k])
    decreases |issues|
  {
    if issues == [] then 0
    else CriticalCount(issues[..|issues| - 1]) + (if IsCritical(issues[|issues| - 1]) then 1 else 0)
  }

  function Max(a: int, b: int): int {
    if a < b then b else a
  }

  /**
   * `score = max(0, 100 - 25 * critical - 5 * nonCritical)`, `globalCritical = critical > 0`:
   * the score lies in [0, 100] and the flag holds exactly when some issue is critical.
   */
  function Confidence(issues: seq<ParseIssue>): (report: ParserConfidenceReport)
    ensures 0 <= report.score <= 100
    ensures report.globalCritical <==> exists k :: 0 <= k < |issues| && IsCritical(issues[k])
  {
    var critical := CriticalCount(issues);
    var nonCritical := |issues| - critical;
    ParserConfidenceReport(Max(0, 100 - critical * 25 - nonCritical * 5), critical > 0)
  }

  // ---------------------------------------------------------------- the whole parse

  /** `parseDraft` on a draft already split into lines. */
  function ParseLines(lines: seq<string>): ParsedDraftSections {
    var split := SplitSections(lines);
    var missing := MissingIssues(split.sections, REQUIRED_SECTIONS);
    var scan := DecodeTodos(split.sections[TODOS]);
    var issues := split.issues + missing + scan.issues;
    ParsedDraftSections(split.sections, scan.todos, issues, Confidence(issues))
  }

  /** `parseDraft(input)`: the score lies in 0..100 and is 100 only for a draft with no issue. */
  function Parse(input: string): (r: ParsedDraftSections)
    ensures 0 <= r.confidence.score <= 100
    ensures r.confidence.score == 100 ==> r.issues == []
  {
    ParseLines(SplitLines(input))
  }

  /** The `forEach` over the lines: fills the section bodies and reports unknown headers. */
  method SplitPass(lines: seq<string>) returns (sections: map<SectionName, seq<string>>, issues: seq<ParseIssue>)
    ensures var st := SplitSections(lines); sections == st.sections && issues == st.issues
  {
    sections := EmptySections();
    issues := [];
    var current: Option<SectionName> := None;
    var i := 0;
    while i < |lines|
      invariant 0 <= i <= |lines|
      invariant SplitState(sections, current, issues) == SplitSections(lines[..i])
    {
      var line := lines[i];
      SplitSectionsSnoc(lines, i);
      var header := HeaderName(line);
      if header.Some? {
        var key := header.value;
        var section := RequiredSection(key);
        if section.Some? {
          current := section;
        } else {
          issues := issues + [UnknownSectionIssue(i + 1, key)];
        }
      } else if current.Some? {
        sections := sections[current.value := sections[current.value] + [line]];
      }
      i := i + 1;
    }
    assert lines[..i] == lines;
  }

  /** The `for (const section of REQUIRED_SECTIONS)` loop: one issue per blank section, in order. */
  method MissingPass(sections: map<SectionName, seq<string>>, names: seq<SectionName>) returns (issues: seq<ParseIssue>)
    requires forall s :: s in sections
    ensures issues == MissingIssues(sections, names)
  {
    issues := [];
    var k := 0;
    assert MissingIssues(sections, names[..k]) == [] by { assert names[..k] == []; }
    while k < |names|
      invariant 0 <= k <= |names|
      invariant issues == MissingIssues(sections, names[..k])
    {
      var section := names[k];
      MissingIssuesSnoc(sections, names, k);
      if Trim(Join(sections[section], "\n")) == [] {
        issues := issues + [MissingSectionIssue(section)];
      }
      k := k + 1;
    }
    assert names[..k] == names;
  }

  /** The TODOS `forEach`: the decoded todos and one field-count issue per malformed line, in order. */
  method TodoPass(todoLines: seq<string>) returns (todos: seq<ParsedTodoLine>, issues: seq<ParseIssue>)
    ensures TodoScan(todos, issues) == DecodeTodos(todoLines)
  {
    issues := [];
    todos := [];
    var j := 0;
    assert DecodeTodos(todoLines[..j]) == TodoScan([], []) by { assert todoLines[..j] == []; }
    while j < |todoLines|
      invariant 0 <= j <= |todoLines|
      invariant TodoScan(todos, issues) == DecodeTodos(todoLines[..j])
    {
      var line := todoLines[j];
      DecodeTodosSnoc(todoLines, j);
      ghost var prev := TodoScan(todos, issues);
      if Trim(line) != [] {
        var parts := TrimmedParts(line);
        if |parts| != 9 {
          issues := issues + [FieldCountIssue(j + 1, |parts|)];
          assert TodoScan(todos, issues) == TodoStep(prev, line, j + 1);
        } else {
          todos := todos + [TodoFromParts(line, parts)];
          assert TodoScan(todos, issues) == TodoStep(prev, line, j + 1);
        }
      }
      j := j + 1;
    }
    assert todoLines[..j] == todoLines;
  }

  /**
   * `parseDraft`: the three passes in order (their issues in the order the source pushes them),
   * then the score; returns exactly `Parse(input)`.
   */
  method ParseDraft(input: string) returns (result: ParsedDraftSections)
    ensures result == Parse(input)
  {
    var lines := SplitLines(input);
    var sections, splitIssues := SplitPass(lines);
    var missingIssues := MissingPass(sections, REQUIRED_SECTIONS);
    var todos, todoIssues := TodoPass(sections[TODOS]);
    var issues := splitIssues + missingIssues + todoIssues;
    var criticalCount := CriticalCount(issues);
    var nonCriticalCount := |issues| - criticalCount;
    var score := Max(0, 100 - criticalCount * 25 - nonCriticalCount * 5);
    result := ParsedDraftSections(sections, todos, issues, ParserConfidenceReport(score, criticalCount > 0));
  }
}
