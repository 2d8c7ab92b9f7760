/**
 * Properties of the transcript draft parser, stated over the specification functions of
 * `TranscriptParser` (and therefore, through `ParseDraft`'s postcondition, over the method).
 */
module ParserProperties {
  import opened Wrappers
  import opened Text
  import opened TranscriptParser

  // ---------------------------------------------------------------- vocabulary

  /** A `[NAME]` line whose name is one of the seven sections. */
  predicate IsSectionHeader(line: string) {
    HeaderName(line).Some? && RequiredSection(HeaderName(line).value).Some?
  }

  /** A `[NAME]` line whose name is not one of the seven sections. */
  predicate IsUnknownHeader(line: string) {
    HeaderName(line).Some? && RequiredSection(HeaderName(line).value).None?
  }

  /** The lines that are not `[NAME]` lines, in order. */
  function NonHeaderLines(lines: seq<string>): seq<string>
    decreases |lines|
  {
    if lines == [] then []
    else
      var last := lines[|lines| - 1];
      NonHeaderLines(lines[..|lines| - 1]) + (if HeaderName(last).None? then [last] else [])
  }

  function CountUnknownHeaders(lines: seq<string>): nat
    decreases |lines|
  {
    if lines == [] then 0
    else CountUnknownHeaders(lines[..|lines| - 1]) + (if IsUnknownHeader(lines[|lines| - 1]) then 1 else 0)
  }

  function CountNonBlank(lines: seq<string>): nat
    decreases |lines|
  {
    if lines == [] then 0
    else CountNonBlank(lines[..|lines| - 1]) + (if IsBlank(lines[|lines| - 1]) then 0 else 1)
  }

  /** No section body holds a `[NAME]` line. */
  ghost predicate BodiesHeaderFree(st: SplitState)
    requires WellFormed(st)
  {
    forall s, k :: 0 <= k < |st.sections[s]| ==> HeaderName(st.sections[s][k]).None?
  }

  /** A line is a header named `name` exactly when, once trimmed, it is `[name]` with `name` a non-empty upper-case word. */
  lemma HeaderNameExact(line: string, name: string)
    ensures HeaderName(line) == Some(name) <==> name != [] && IsUpperWord(name) && Trim(line) == "[" + name + "]"
  {
    var t := Trim(line);
    if HeaderName(line) == Some(name) {
      assert t == "[" + name + "]";
    }
    if name != [] && IsUpperWord(name) && t == "[" + name + "]" {
      assert t[1..|t| - 1] == name;
    }
  }

  // ---------------------------------------------------------------- the splitting pass

  /** Running the pass over `a + b` is running it over `a`, then over `b` with shifted line numbers. */
  lemma {:induction false} RunAppend(st: SplitState, a: seq<string>, b: seq<string>, base: nat)
    requires WellFormed(st)
    ensures Run(st, a + b, base) == Run(Run(st, a, base), b, base + |a|)
    decreases |b|
  {
    if b == [] {
      assert a + b == a;
    } else {
      var init := b[..|b| - 1];
      var last := b[|b| - 1];
      assert (a + b)[..|a + b| - 1] == a + init;
      assert (a + b)[|a + b| - 1] == last;
      calc {
        Run(st, a + b, base);
        SplitStep(Run(st, a + init, base), last, base + |a| + |b|);
        { RunAppend(st, a, init, base); }
        SplitStep(Run(Run(st, a, base), init, base + |a|), last, base + |a| + |b|);
        Run(Run(st, a, base), b, base + |a|);
      }
    }
  }

  /** The bodies and the current section never depend on the issues or the line numbering. */
  lemma {:induction false} RunIgnoresIssues(st1: SplitState, st2: SplitState, lines: seq<string>, b1: nat, b2: nat)
    requires WellFormed(st1) && WellFormed(st2)
    requires st1.sections == st2.sections && st1.current == st2.current
    ensures Run(st1, lines, b1).sections == Run(st2, lines, b2).sections
    ensures Run(st1, lines, b1).current == Run(st2, lines, b2).current
    decreases |lines|
  {
    if lines != [] {
      RunIgnoresIssues(st1, st2, lines[..|lines| - 1], b1, b2);
    }
  }

  /** Header lines are never stored in a body. */
  lemma {:induction false} RunKeepsBodiesHeaderFree(st: SplitState, lines: seq<string>, base: nat)
    requires WellFormed(st) && BodiesHeaderFree(st)
    ensures BodiesHeaderFree(Run(st, lines, base))
    decreases |lines|
  {
    if lines != [] {
      RunKeepsBodiesHeaderFree(st, lines[..|lines| - 1], base);
    }
  }

  /** Whatever the input, all seven sections are present and none holds a `[NAME]` line. */
  lemma BodiesHoldNoHeaderLines(input: string)
    ensures forall s :: s in Parse(input).sections
    ensures forall s, k :: 0 <= k < |Parse(input).sections[s]| ==> HeaderName(Parse(input).sections[s][k]).None?
  {
    RunKeepsBodiesHeaderFree(INITIAL_SPLIT, SplitLines(input), 0);
  }

  /** Without a current section, lines that are not section headers change no body. */
  lemma {:induction false} NoSectionNoBody(st: SplitState, lines: seq<string>, base: nat)
    requires WellFormed(st) && st.current == None
    requires forall k :: 0 <= k < |lines| ==> !IsSectionHeader(lines[k])
    ensures Run(st, lines, base).sections == st.sections
    ensures Run(st, lines, base).current == None
    decreases |lines|
  {
    if lines != [] {
      NoSectionNoBody(st, lines[..|lines| - 1], base);
    }
  }

  /**
   * Lines after a section header, up to the next section header, go verbatim and in order to
   * that section's body, except `[NAME]` lines; no other body changes and the section stays current.
   */
  lemma {:induction false} BodyFollowsSection(st: SplitState, body: seq<string>, base: nat)
    requires WellFormed(st) && st.current.Some?
    requires forall k :: 0 <= k < |body| ==> !IsSectionHeader(body[k])
    ensures Run(st, body, base).current == st.current
    ensures Run(st, body, base).sections
      == st.sections[st.current.value := st.sections[st.current.value] + NonHeaderLines(body)]
    ensures (forall k :: 0 <= k < |body| ==> HeaderName(body[k]).None?) ==> Run(st, body, base).issues == st.issues
    decreases |body|
  {
    if body == [] {
      var s := st.current.value;
      assert st.sections[s] + NonHeaderLines(body) == st.sections[s];
      assert st.sections[s := st.sections[s]] == st.sections;
    } else {
      var init := body[..|body| - 1];
      var last := body[|body| - 1];
      BodyFollowsSection(st, init, base);
      var s := st.current.value;
      var mid := Run(st, init, base);
      assert !IsSectionHeader(last);
      assert Run(st, body, base) == SplitStep(mid, last, base + |body|);
      if HeaderName(last).None? {
        assert NonHeaderLines(body) == NonHeaderLines(init) + [last];
        assert st.sections[s] + NonHeaderLines(init) + [last] == st.sections[s] + NonHeaderLines(body);
        assert SplitStep(mid, last, base + |body|).sections == mid.sections[s := mid.sections[s] + [last]];
        assert mid.sections[s := mid.sections[s] + [last]] == st.sections[s := st.sections[s] + NonHeaderLines(body)];
      } else {
        assert NonHeaderLines(init) == NonHeaderLines(body);
        assert RequiredSection(HeaderName(last).value).None?;
        assert SplitStep(mid, last, base + |body|).sections == mid.sections;
      }
    }
  }

  /** Lines before the first section header are dropped: the bodies are those of the rest alone. */
  lemma LinesBeforeFirstHeaderDropped(pre: seq<string>, post: seq<string>)
    requires forall k :: 0 <= k < |pre| ==> !IsSectionHeader(pre[k])
    ensures ParseLines(pre + post).sections == ParseLines(post).sections
    ensures ParseLines(pre + post).todos == ParseLines(post).todos
  {
    assert SplitSections(pre + post).sections == SplitSections(post).sections by {
      RunAppend(INITIAL_SPLIT, pre, post, 0);
      NoSectionNoBody(INITIAL_SPLIT, pre, 0);
      RunIgnoresIssues(SplitSections(pre), INITIAL_SPLIT, post, |pre|, 0);
    }
  }

  /**
   * The splitting pass reports one `UNKNOWN_SECTION` issue per unknown `[NAME]` line, in
   * `GLOBAL`, non-critical, at that line's 1-based number, naming the header.
   */
  lemma {:induction false} UnknownSectionIssues(lines: seq<string>)
    ensures |SplitSections(lines).issues| == CountUnknownHeaders(lines)
    ensures forall k :: 0 <= k < |SplitSections(lines).issues| ==>
      var issue := SplitSections(lines).issues[k];
      && issue.code == UNKNOWN_SECTION && issue.section == GLOBAL && issue.critical == None
      && 1 <= issue.line <= |lines| && IsUnknownHeader(lines[issue.line - 1])
      && issue.message == "Unknown section [" + HeaderName(lines[issue.line - 1]).value + "]"
    decreases |lines|
  {
    if lines != [] {
      var init := lines[..|lines| - 1];
      var last := lines[|lines| - 1];
      UnknownSectionIssues(init);
      var prev := SplitSections(init);
      assert SplitSections(lines) == SplitStep(prev, last, |lines|);
      SplitStepIssues(prev, last, |lines|);
      forall k | 0 <= k < |prev.issues|
        ensures lines[prev.issues[k].line - 1] == init[prev.issues[k].line - 1]
      {
      }
    }
  }

  /** A step adds an issue exactly for an unknown header line, and no other issue. */
  lemma SplitStepIssues(st: SplitState, line: string, lineNo: nat)
    requires WellFormed(st)
    ensures SplitStep(st, line, lineNo).issues
      == st.issues + (if IsUnknownHeader(line) then [UnknownSectionIssue(lineNo, HeaderName(line).value)] else [])
  {
  }

  // ---------------------------------------------------------------- missing sections

  lemma {:induction false} BlankAppend(a: string, b: string)
    ensures IsBlank(a + b) <==> IsBlank(a) && IsBlank(b)
  {
    if IsBlank(a) && IsBlank(b) {
      forall i | 0 <= i < |a + b| ensures IsSpace((a + b)[i]) {
        if i >= |a| { assert (a + b)[i] == b[i - |a|]; }
      }
    }
    if IsBlank(a + b) {
      forall i | 0 <= i < |a| ensures IsSpace(a[i]) {
        assert (a + b)[i] == a[i];
      }
      forall i | 0 <= i < |b| ensures IsSpace(b[i]) {
        assert (a + b)[|a| + i] == b[i];
      }
    }
  }

  /** The joined body is blank exactly when each of its lines is. */
  lemma {:induction false} JoinBlank(body: seq<string>)
    ensures IsBlank(Join(body, "\n")) <==> forall k :: 0 <= k < |body| ==> IsBlank(body[k])
    decreases |body|
  {
    if |body| > 1 {
      var init := body[..|body| - 1];
      JoinBlank(init);
      BlankAppend(Join(init, "\n"), "\n");
      BlankAppend(Join(init, "\n") + "\n", body[|body| - 1]);
      assert forall k :: 0 <= k < |init| ==> init[k] == body[k];
    }
  }

  /** A section counts as missing exactly when every line of its body is blank (or it has none). */
  lemma MissingExactlyWhenBlank(body: seq<string>)
    ensures IsMissing(body) <==> forall k :: 0 <= k < |body| ==> IsBlank(body[k])
  {
    JoinBlank(body);
    TrimEmptyIffBlank(Join(body, "\n"));
  }

  /**
   * `MISSING_REQUIRED_SECTION` issues: each has line 0, is critical and names a missing section;
   * every listed section that is missing gets its issue.
   */
  lemma {:induction false} MissingIssuesExact(sections: map<SectionName, seq<string>>, names: seq<SectionName>)
    requires forall s :: s in sections
    ensures forall k :: 0 <= k < |MissingIssues(sections, names)| ==>
      var issue := MissingIssues(sections, names)[k];
      && issue.line == 0 && issue.critical == Some(true) && issue.code == MISSING_REQUIRED_SECTION
      && issue.section.InSection? && issue.section.name in names && IsMissing(sections[issue.section.name])
      && issue == MissingSectionIssue(issue.section.name)
    ensures forall s :: s in names ==> (IsMissing(sections[s]) <==> MissingSectionIssue(s) in MissingIssues(sections, names))
    decreases |names|
  {
    if names != [] {
      var init := names[..|names| - 1];
      MissingIssuesExact(sections, init);
      assert names == init + [names[|names| - 1]];
    }
  }

  /** With every section missing, one missing issue per listed name. */
  lemma {:induction false} MissingIssuesAllBlank(sections: map<SectionName, seq<string>>, names: seq<SectionName>)
    requires forall s :: s in sections && IsMissing(sections[s])
    ensures |MissingIssues(sections, names)| == |names|
    decreases |names|
  {
    if names != [] {
      MissingIssuesAllBlank(sections, names[..|names| - 1]);
    }
  }

  /** With no section missing, the loop reports nothing. */
  lemma {:induction false} MissingIssuesNoneBlank(sections: map<SectionName, seq<string>>, names: seq<SectionName>)
    requires forall s :: s in sections && !IsMissing(sections[s])
    ensures MissingIssues(sections, names) == []
    decreases |names|
  {
    if names != [] {
      MissingIssuesNoneBlank(sections, names[..|names| - 1]);
    }
  }

  // ---------------------------------------------------------------- enum fields

  /** A non-empty word with no upper-case letter and no whitespace at either end. */
  predicate IsNormalWord(s: string) {
    s != [] && !IsSpace(s[0]) && !IsSpace(s[|s| - 1]) && forall i :: 0 <= i < |s| ==> !IsUpper(s[i])
  }

  lemma LowerCharKeepsSpace(c: char)
    ensures IsSpace(LowerChar(c)) <==> IsSpace(c)
  {
  }

  /**
   * With a normal fallback (`later`, `low`, `online`, `none`), `normalizeEnum` never yields an
   * empty, upper-case or padded value, trimming the value first changes nothing, and normalizing
   * twice is normalizing once.
   */
  lemma NormalizeEnumNormal(value: string, fallback: string)
    requires IsNormalWord(fallback)
    ensures IsNormalWord(NormalizeEnum(value, fallback))
    ensures NormalizeEnum(Trim(value), fallback) == NormalizeEnum(value, fallback)
    ensures NormalizeEnum(NormalizeEnum(value, fallback), fallback) == NormalizeEnum(value, fallback)
  {
    var r := NormalizeEnum(value, fallback);
    var _ := TrimMargins(value);
    TrimIdempotent(value);
    if Trim(value) != [] {
      LowerCharKeepsSpace(Trim(value)[0]);
      LowerCharKeepsSpace(Trim(value)[|r| - 1]);
    }
    TrimOfFramed(r);
    assert Lower(r) == r;
  }

  // ---------------------------------------------------------------- todo lines

  /**
   * `t` is the record pushed for `line`: nine parts, `raw` is the line, the free-text fields
   * are the trimmed parts 0 and 5 to 8, and the enum fields are parts 1 to 4 normalized with
   * the defaults `later`, `low`, `online`, `none`.
   */
  ghost predicate DecodesTo(line: string, t: ParsedTodoLine) {
    var p := Split(line, '|');
    && |p| == 9
    && t.raw == line
    && t.fields.title == Trim(p[0])
    && t.fields.horizon == NormalizeEnum(p[1], "later")
    && t.fields.energy == NormalizeEnum(p[2], "low")
    && t.fields.context == NormalizeEnum(p[3], "online")
    && t.fields.moneyCost == NormalizeEnum(p[4], "none")
    && t.fields.domain == Trim(p[5])
    && t.fields.responsible == Trim(p[6])
    && t.fields.dueDate == Trim(p[7])
    && t.fields.notes == Trim(p[8])
  }

  /**
   * One TODOS line: a blank line yields nothing; a non-blank line with exactly eight pipes
   * yields one decoded todo; any other line yields one non-critical `TODO_FIELD_COUNT` issue.
   */
  lemma TodoStepCases(prev: TodoScan, line: string, lineNo: nat)
    ensures IsBlank(line) ==> TodoStep(prev, line, lineNo) == prev
    ensures !IsBlank(line) && Count(line, '|') == 8 ==>
      var next := TodoStep(prev, line, lineNo);
      && next.issues == prev.issues
      && |next.todos| == |prev.todos| + 1 && next.todos[..|prev.todos|] == prev.todos
      && DecodesTo(line, next.todos[|prev.todos|])
    ensures !IsBlank(line) && Count(line, '|') != 8 ==>
      TodoStep(prev, line, lineNo) == prev.(issues := prev.issues + [FieldCountIssue(lineNo, Count(line, '|') + 1)])
  {
    TrimEmptyIffBlank(line);
    if !IsBlank(line) && Count(line, '|') == 8 {
      var p := Split(line, '|');
      TrimIdempotent(p[1]);
      TrimIdempotent(p[2]);
      TrimIdempotent(p[3]);
      TrimIdempotent(p[4]);
      var next := TodoStep(prev, line, lineNo);
      assert next.todos == prev.todos + [TodoFromParts(line, TrimmedParts(line))];
    }
  }

  /**
   * Every non-blank TODOS line is accounted for: it yields a todo or a field-count issue, so
   * `#todos + #issues == #non-blank lines`; each issue is non-critical, in TODOS, at the line's
   * index in the section plus one; each todo decodes one of the lines.
   */
  lemma {:induction false} TodoLinesAccounted(lines: seq<string>)
    ensures |DecodeTodos(lines).todos| + |DecodeTodos(lines).issues| == CountNonBlank(lines)
    ensures forall k :: 0 <= k < |DecodeTodos(lines).issues| ==> FieldCountIssueOf(lines, DecodeTodos(lines).issues[k])
    ensures forall k :: 0 <= k < |DecodeTodos(lines).todos| ==>
      DecodeTodos(lines).todos[k].raw in lines && DecodesTo(DecodeTodos(lines).todos[k].raw, DecodeTodos(lines).todos[k])
    decreases |lines|
  {
    TodoCountsAccounted(lines);
    TodoIssuesAccounted(lines);
    TodoRecordsDecoded(lines);
  }

  lemma {:induction false} TodoCountsAccounted(lines: seq<string>)
    ensures |DecodeTodos(lines).todos| + |DecodeTodos(lines).issues| == CountNonBlank(lines)
    decreases |lines|
  {
    if lines != [] {
      var init := lines[..|lines| - 1];
      TodoCountsAccounted(init);
      TodoStepCases(DecodeTodos(init), lines[|lines| - 1], |lines|);
    }
  }

  /**
   * `issue` is the non-critical `TODO_FIELD_COUNT` issue of a non-blank line of `lines` whose
   * pipe count is not eight, at that line's index plus one.
   */
  ghost predicate FieldCountIssueOf(lines: seq<string>, issue: ParseIssue) {
    && issue.code == TODO_FIELD_COUNT && issue.section == InSection(TODOS) && !IsCritical(issue)
    && 1 <= issue.line <= |lines|
    && !IsBlank(lines[issue.line - 1]) && Count(lines[issue.line - 1], '|') != 8
  }

  lemma {:induction false} TodoIssuesAccounted(lines: seq<string>)
    ensures forall k :: 0 <= k < |DecodeTodos(lines).issues| ==> FieldCountIssueOf(lines, DecodeTodos(lines).issues[k])
    decreases |lines|
  {
    if lines != [] {
      var init := lines[..|lines| - 1];
      var last := lines[|lines| - 1];
      TodoIssuesAccounted(init);
      var prev := DecodeTodos(init);
      TodoStepCases(prev, last, |lines|);
      var issues := DecodeTodos(lines).issues;
      forall k | 0 <= k < |issues|
        ensures FieldCountIssueOf(lines, issues[k])
      {
        if k < |prev.issues| {
          assert issues[k] == prev.issues[k];
          assert lines[issues[k].line - 1] == init[issues[k].line - 1];
        } else {
          assert issues[k] == FieldCountIssue(|lines|, Count(last, '|') + 1);
        }
      }
    }
  }

  lemma {:induction false} TodoRecordsDecoded(lines: seq<string>)
    ensures forall k :: 0 <= k < |DecodeTodos(lines).todos| ==>
      DecodeTodos(lines).todos[k].raw in lines && DecodesTo(DecodeTodos(lines).todos[k].raw, DecodeTodos(lines).todos[k])
    decreases |lines|
  {
    if lines != [] {
      var init := lines[..|lines| - 1];
      var last := lines[|lines| - 1];
      TodoRecordsDecoded(init);
      var prev := DecodeTodos(init);
      TodoStepCases(prev, last, |lines|);
      var todos := DecodeTodos(lines).todos;
      forall k | 0 <= k < |todos|
        ensures todos[k].raw in lines && DecodesTo(todos[k].raw, todos[k])
      {
        if k < |prev.todos| {
          assert todos[k] == prev.todos[k];
          assert todos[k].raw in init;
          assert lines == init + [last];
        } else {
          assert todos[k].raw == last;
          assert lines == init + [last];
        }
      }
    }
  }

  // ---------------------------------------------------------------- confidence

  lemma {:induction false} CriticalCountAppend(a: seq<ParseIssue>, b: seq<ParseIssue>)
    ensures CriticalCount(a + b) == CriticalCount(a) + CriticalCount(b)
    decreases |b|
  {
    if b == [] {
      assert a + b == a;
    } else {
      CriticalCountAppend(a, b[..|b| - 1]);
      assert (a + b)[..|a + b| - 1] == a + b[..|b| - 1];
    }
  }

  lemma {:induction false} CriticalCountAll(issues: seq<ParseIssue>)
    requires forall k :: 0 <= k < |issues| ==> IsCritical(issues[k])
    ensures CriticalCount(issues) == |issues|
    decreases |issues|
  {
    if issues != [] {
      CriticalCountAll(issues[..|issues| - 1]);
    }
  }

  /** One missing section already makes the draft blocking and costs at least 25 points. */
  lemma MissingSectionBlocksCommit(input: string, s: SectionName)
    requires IsMissing(Parse(input).sections[s])
    ensures Parse(input).confidence.globalCritical
    ensures Parse(input).confidence.score <= 75
  {
    var split := SplitSections(SplitLines(input));
    var missing := MissingIssues(split.sections, REQUIRED_SECTIONS);
    var k := MissingSectionListed(split.sections, s);
    CriticalIssueCaps(split.issues, missing, DecodeTodos(split.sections[TODOS]).issues, k);
  }

  /** A missing required section has its critical issue among the missing-section issues. */
  lemma MissingSectionListed(sections: map<SectionName, seq<string>>, s: SectionName) returns (k: nat)
    requires forall t :: t in sections
    requires IsMissing(sections[s])
    ensures k < |MissingIssues(sections, REQUIRED_SECTIONS)|
    ensures IsCritical(MissingIssues(sections, REQUIRED_SECTIONS)[k])
  {
    AllSectionsRequired();
    MissingIssuesExact(sections, REQUIRED_SECTIONS);
    var missing := MissingIssues(sections, REQUIRED_SECTIONS);
    assert MissingSectionIssue(s) in missing;
    k :| 0 <= k < |missing| && missing[k] == MissingSectionIssue(s);
  }

  /** One critical issue already sets the flag and costs at least 25 points. */
  lemma CriticalIssueCaps(a: seq<ParseIssue>, b: seq<ParseIssue>, c: seq<ParseIssue>, k: nat)
    requires k < |b| && IsCritical(b[k])
    ensures Confidence(a + b + c).globalCritical && Confidence(a + b + c).score <= 75
  {
    var issues := a + b + c;
    assert issues[|a| + k] == b[k];
    assert CriticalCount(issues) != 0;
  }

  /**
   * A draft with no section header at all (for instance the empty draft) has seven empty
   * sections, seven critical `MISSING_REQUIRED_SECTION` issues, and score 0.
   */
  lemma NoHeaderDraft(lines: seq<string>)
    requires forall k :: 0 <= k < |lines| ==> !IsSectionHeader(lines[k])
    ensures forall s :: ParseLines(lines).sections[s] == []
    ensures ParseLines(lines).todos == []
    ensures ParseLines(lines).confidence == ParserConfidenceReport(0, true)
  {
    NoSectionNoBody(INITIAL_SPLIT, lines, 0);
    var split := SplitSections(lines);
    assert forall s :: split.sections[s] == [];
    var missing := MissingIssues(split.sections, REQUIRED_SECTIONS);
    assert |missing| == 7 && forall k :: 0 <= k < |missing| ==> IsCritical(missing[k]) by {
      assert forall s :: IsMissing(split.sections[s]);
      MissingIssuesAllBlank(split.sections, REQUIRED_SECTIONS);
      MissingIssuesExact(split.sections, REQUIRED_SECTIONS);
    }
    SevenCriticalScoreZero(split.issues, missing, DecodeTodos(split.sections[TODOS]).issues);
  }

  /** Seven critical issues already bring the score to 0, whatever else is reported. */
  lemma SevenCriticalScoreZero(a: seq<ParseIssue>, b: seq<ParseIssue>, c: seq<ParseIssue>)
    requires |b| == 7 && forall k :: 0 <= k < |b| ==> IsCritical(b[k])
    ensures Confidence(a + b + c) == ParserConfidenceReport(0, true)
  {
    CriticalCountAll(b);
    CriticalCountAppend(a, b);
    CriticalCountAppend(a + b, c);
  }

  /** The empty draft is the one-line draft `[""]`. */
  lemma EmptyDraft()
    ensures Parse("").confidence == ParserConfidenceReport(0, true)
  {
    assert SplitLines("") == [""];
    NoHeaderDraft([""]);
  }

  // ---------------------------------------------------------------- well-formed drafts

  /** The header line `[NAME]` of a section. */
  function HeaderLine(s: SectionName): string {
    "[" + Name(s) + "]"
  }

  /** Each section's header line opens that section. */
  lemma HeaderLineOpensSection(s: SectionName)
    ensures HeaderName(HeaderLine(s)) == Some(Name(s))
    ensures RequiredSection(Name(s)) == Some(s)
  {
    assert IsUpperWord(Name(s)) by {
      match s
      case SUMMARY => case TIMELINE => case TODOS => case DECISIONS =>
      case MONEY => case IDEAS => case QUESTIONS =>
    }
    TrimOfFramed(HeaderLine(s));
    HeaderNameExact(HeaderLine(s), Name(s));
  }

  /** A body with no `[NAME]` line. */
  ghost predicate NoHeaderLines(body: seq<string>) {
    forall k :: 0 <= k < |body| ==> HeaderName(body[k]).None?
  }

  /** The draft listing the sections `names` in order, each header followed by its body. */
  function DraftLines(bodies: map<SectionName, seq<string>>, names: seq<SectionName>): seq<string>
    requires forall s :: s in bodies
    decreases |names|
  {
    if names == [] then []
    else
      var last := names[|names| - 1];
      DraftLines(bodies, names[..|names| - 1]) + [HeaderLine(last)] + bodies[last]
  }

  lemma {:induction false} NonHeaderLinesAll(body: seq<string>)
    requires NoHeaderLines(body)
    ensures NonHeaderLines(body) == body
    decreases |body|
  {
    if body != [] {
      NonHeaderLinesAll(body[..|body| - 1]);
      assert body[..|body| - 1] + [body[|body| - 1]] == body;
    }
  }

  /** A section's header line followed by a body without `[NAME]` lines appends that body to the section. */
  lemma HeaderThenBody(x: SplitState, s: SectionName, body: seq<string>, base: nat)
    requires WellFormed(x) && NoHeaderLines(body)
    ensures Run(x, [HeaderLine(s)] + body, base).issues == x.issues
    ensures Run(x, [HeaderLine(s)] + body, base).sections == x.sections[s := x.sections[s] + body]
    ensures Run(x, [HeaderLine(s)] + body, base).current == Some(s)
  {
    var h := HeaderLine(s);
    RunAppend(x, [h], body, base);
    HeaderLineOpensSection(s);
    assert [h][..0] == [];
    var y := x.(current := Some(s));
    assert Run(x, [h], base) == y;
    forall k | 0 <= k < |body| ensures !IsSectionHeader(body[k]) {
    }
    BodyFollowsSection(y, body, base + 1);
    NonHeaderLinesAll(body);
  }

  /** Appending a section's header and its body to a draft appends the body to that section. */
  lemma AppendSection(d: seq<string>, s: SectionName, body: seq<string>)
    requires NoHeaderLines(body)
    ensures var x := SplitSections(d);
      SplitSections(d + ([HeaderLine(s)] + body)) == x.(sections := x.sections[s := x.sections[s] + body], current := Some(s))
  {
    var x := SplitSections(d);
    var tail := [HeaderLine(s)] + body;
    assert SplitSections(d + tail) == Run(x, tail, |d|) by {
      RunAppend(INITIAL_SPLIT, d, tail, 0);
    }
    var r := Run(x, tail, |d|);
    assert r.issues == x.issues && r.sections == x.sections[s := x.sections[s] + body] && r.current == Some(s) by {
      HeaderThenBody(x, s, body, |d|);
    }
  }

  lemma LastOrInit<T>(names: seq<T>, s: T)
    requires names != []
    ensures s in names <==> s in names[..|names| - 1] || s == names[|names| - 1]
  {
    assert names == names[..|names| - 1] + [names[|names| - 1]];
  }

  /** Distinct section names, in the order their headers are written. */
  predicate DistinctNames(names: seq<SectionName>) {
    forall i, j :: 0 <= i < j < |names| ==> names[i] != names[j]
  }

  /** What splitting the draft of `names` gives: the listed bodies, no issue, the last name current. */
  ghost predicate SplitsInto(r: SplitState, bodies: map<SectionName, seq<string>>, names: seq<SectionName>)
    requires forall s :: s in bodies
  {
    && r.issues == []
    && (forall s :: s in r.sections && r.sections[s] == if s in names then bodies[s] else [])
    && r.current == if names == [] then None else Some(names[|names| - 1])
  }

  /** Splitting a draft built from distinct section names gives back exactly the listed bodies. */
  lemma {:induction false} DraftSplits(bodies: map<SectionName, seq<string>>, names: seq<SectionName>)
    requires forall s :: s in bodies && NoHeaderLines(bodies[s])
    requires DistinctNames(names)
    ensures SplitsInto(SplitSections(DraftLines(bodies, names)), bodies, names)
    decreases |names|
  {
    if names == [] {
      assert DraftLines(bodies, names) == [];
      assert SplitSections([]) == INITIAL_SPLIT;
    } else {
      var init := names[..|names| - 1];
      assert DistinctNames(init) by {
        assert forall i :: 0 <= i < |init| ==> init[i] == names[i];
      }
      DraftSplits(bodies, init);
      var last := names[|names| - 1];
      assert names == init + [last];
      DraftStep(bodies, init, last);
      ExtendSplit(SplitSections(DraftLines(bodies, init)), SplitSections(DraftLines(bodies, names)), bodies, names);
    }
  }

  /** One more section: its header and body extend the split of the shorter draft. */
  lemma DraftStep(bodies: map<SectionName, seq<string>>, init: seq<SectionName>, last: SectionName)
    requires forall s :: s in bodies
    requires NoHeaderLines(bodies[last])
    ensures var x := SplitSections(DraftLines(bodies, init));
      SplitSections(DraftLines(bodies, init + [last]))
        == x.(sections := x.sections[last := x.sections[last] + bodies[last]], current := Some(last))
  {
    var d := DraftLines(bodies, init);
    var lines := DraftLines(bodies, init + [last]);
    assert lines == d + ([HeaderLine(last)] + bodies[last]) by {
      assert (init + [last])[..|init|] == init;
    }
    AppendSection(d, last, bodies[last]);
  }

  /** Appending the last name's body to the split of the other names gives the split of all of them. */
  lemma ExtendSplit(x: SplitState, r: SplitState, bodies: map<SectionName, seq<string>>, names: seq<SectionName>)
    requires forall s :: s in bodies
    requires names != [] && DistinctNames(names)
    requires SplitsInto(x, bodies, names[..|names| - 1])
    requires var last := names[|names| - 1];
      r == x.(sections := x.sections[last := x.sections[last] + bodies[last]], current := Some(last))
    ensures SplitsInto(r, bodies, names)
  {
    var init := names[..|names| - 1];
    var last := names[|names| - 1];
    assert last !in init;
    forall s ensures s in r.sections && r.sections[s] == if s in names then bodies[s] else [] {
      LastOrInit(names, s);
    }
  }

  /** The seven sections in order: the split gives back the bodies and reports nothing. */
  lemma DraftOfAllSections(bodies: map<SectionName, seq<string>>)
    requires forall s :: s in bodies && NoHeaderLines(bodies[s])
    ensures SplitSections(DraftLines(bodies, REQUIRED_SECTIONS)).sections == bodies
    ensures SplitSections(DraftLines(bodies, REQUIRED_SECTIONS)).issues == []
  {
    AllSectionsRequired();
    DraftSplits(bodies, REQUIRED_SECTIONS);
  }

  /** TODOS lines that are all blank or hold eight pipes give no issue and one todo per non-blank line. */
  lemma {:induction false} TodoLinesAllValid(lines: seq<string>)
    requires forall k :: 0 <= k < |lines| ==> IsBlank(lines[k]) || Count(lines[k], '|') == 8
    ensures DecodeTodos(lines).issues == []
    ensures |DecodeTodos(lines).todos| == CountNonBlank(lines)
    decreases |lines|
  {
    TodoLinesAccounted(lines);
    if lines != [] {
      var init := lines[..|lines| - 1];
      assert forall k :: 0 <= k < |init| ==> init[k] == lines[k];
      TodoLinesAllValid(init);
      TodoStepCases(DecodeTodos(init), lines[|lines| - 1], |lines|);
    }
  }

  /**
   * A draft with the seven sections in order, each with a non-blank line and no `[NAME]` line,
   * whose TODOS lines are all blank or hold eight pipes, parses back to exactly those bodies,
   * with no issue, score 100, not blocking, and one todo per non-blank TODOS line.
   */
  lemma WellFormedDraftParses(bodies: map<SectionName, seq<string>>)
    requires forall s :: s in bodies && NoHeaderLines(bodies[s])
    requires forall s :: exists k :: 0 <= k < |bodies[s]| && !IsBlank(bodies[s][k])
    requires forall k :: 0 <= k < |bodies[TODOS]| ==> IsBlank(bodies[TODOS][k]) || Count(bodies[TODOS][k], '|') == 8
    ensures ParseLines(DraftLines(bodies, REQUIRED_SECTIONS)).sections == bodies
    ensures ParseLines(DraftLines(bodies, REQUIRED_SECTIONS)).issues == []
    ensures ParseLines(DraftLines(bodies, REQUIRED_SECTIONS)).confidence == ParserConfidenceReport(100, false)
    ensures |ParseLines(DraftLines(bodies, REQUIRED_SECTIONS)).todos| == CountNonBlank(bodies[TODOS])
  {
    var split := SplitSections(DraftLines(bodies, REQUIRED_SECTIONS));
    DraftOfAllSections(bodies);
    forall s ensures !IsMissing(bodies[s]) {
      MissingExactlyWhenBlank(bodies[s]);
    }
    MissingIssuesNoneBlank(split.sections, REQUIRED_SECTIONS);
    TodoLinesAllValid(bodies[TODOS]);
    assert split.issues + MissingIssues(split.sections, REQUIRED_SECTIONS) + DecodeTodos(bodies[TODOS]).issues == [];
  }
}
