/** parse_education: institution entries keyed on education keywords or years. */
module Education {
  import opened Wrappers
  import opened Text
  import opened Grouping

  datatype Entry = Entry(institution: string, degree: string, start_year: string,
                         end_year: string, grade: string)

  const Keywords: seq<string> :=
    ["university", "college", "institute", "school", "bachelor", "master",
     "phd", "degree", "b.tech", "m.tech", "b.sc", "m.sc"]

  /** The line names an institution or a degree, or carries a 20xx year. */
  predicate IsEduLine(line: string) {
    || (exists k :: 0 <= k < |Keywords| && Contains(Lower(line), Keywords[k]))
    || (exists i :: 0 <= i < |line| && YearAt(line, i))
  }

  /** The line looks like a grade: it mentions a (C)GPA or a percentage. */
  predicate IsGradeLine(line: string) {
    Contains(Lower(line), "cgpa") || Contains(Lower(line), "gpa") || '%' in line
  }

  // The loop of parse_education as written, over the non-blank stripped lines.

  /** The loop state: finished entries and the open one (Python's `{}` is None). */
  datatype State = State(entries: seq<Entry>, current: Option<Entry>)

  /** The year update as written: the first year becomes end_year; a later one
      moves end_year to start_year. */
  function WithYear(e: Entry, year: Option<string>): Entry {
    match year
    case None => e
    case Some(y) =>
      if e.end_year == "" then e.(end_year := y)
      else if e.start_year == "" then e.(start_year := e.end_year, end_year := y)
      else e
  }

  /** One iteration of the loop body, every branch as written, including the
      degree continuation and the start-year shift. */
  function Step(st: State, line: string): State {
    if IsEduLine(line) then
      var flushed := if st.current.Some? && |st.current.value.institution| > 0
                     then State(st.entries + [st.current.value], None)
                     else st;
      var e := if flushed.current.None? then Entry(line, "", "", "", "")
               else flushed.current.value.(degree := flushed.current.value.degree + " " + line);
      State(flushed.entries, Some(WithYear(e, FirstYear(line, 0))))
    else if st.current.Some? && IsGradeLine(line) then
      State(st.entries, Some(st.current.value.(grade := line)))
    else st
  }

  function Run(lines: seq<string>, st: State): seq<Entry> {
    if |lines| == 0 then Closed(st.entries, st.current)
    else Run(lines[1..], Step(st, lines[0]))
  }

  /** parse_education(text). */
  function ParseEducation(text: string): seq<Entry> {
    Run(CleanLines(Split(text, '\n')), State([], None))
  }

  // What the loop amounts to: every keyword or year line closes the open
  // entry and opens a new one, and grade lines overwrite its grade.

  /** The entry a keyword or year line opens. */
  function Opened(line: string): Entry {
    Entry(line, "", "", FirstYear(line, 0).GetOr(""), "")
  }

  function AddGrade(e: Entry, line: string): Entry {
    if IsGradeLine(line) then e.(grade := line) else e
  }

  predicate AllNonEmpty(lines: seq<string>) {
    forall k :: 0 <= k < |lines| ==> lines[k] != []
  }

  lemma StepAtEduLine(es: seq<Entry>, cur: Option<Entry>, line: string)
    requires line != [] && IsEduLine(line)
    requires cur.Some? ==> cur.value.institution != []
    ensures Step(State(es, cur), line) == State(Closed(es, cur), Some(Opened(line)))
  {
  }

  lemma StepAtOtherLine(es: seq<Entry>, cur: Option<Entry>, line: string)
    requires !IsEduLine(line)
    ensures Step(State(es, cur), line)
            == State(es, if cur.Some? then Some(AddGrade(cur.value, line)) else None)
  {
  }

  /** The branches at the degree continuation and the start-year shift never
      run: the loop as written equals the simple loop. */
  lemma {:induction false} RunIsScan(lines: seq<string>, es: seq<Entry>, cur: Option<Entry>)
    requires AllNonEmpty(lines)
    requires cur.Some? ==> cur.value.institution != []
    ensures Run(lines, State(es, cur)) == Scan(lines, es, cur, IsEduLine, Opened, AddGrade)
    decreases |lines|
  {
    if |lines| > 0 {
      var line := lines[0];
      if IsEduLine(line) {
        StepAtEduLine(es, cur, line);
        RunIsScan(lines[1..], Closed(es, cur), Some(Opened(line)));
      } else {
        StepAtOtherLine(es, cur, line);
        RunIsScan(lines[1..], es, if cur.Some? then Some(AddGrade(cur.value, line)) else None);
      }
    }
  }

  /** The last grade line of `body`, or `default` when it has none. */
  function LastGrade(body: seq<string>, default: string): string {
    if |body| == 0 then default
    else if IsGradeLine(body[|body| - 1]) then body[|body| - 1]
    else LastGrade(body[..|body| - 1], default)
  }

  lemma {:induction false} ExtendAddGrade(e: Entry, body: seq<string>)
    ensures Extend(e, body, AddGrade) == e.(grade := LastGrade(body, e.grade))
    decreases |body|
  {
    if |body| > 0 {
      ExtendAddGrade(e, body[..|body| - 1]);
    }
  }

  /** The fields of the entry a group of lines makes. */
  predicate EntryFields(e: Entry, g: Group<string>) {
    && e.institution == g.head
    && e.degree == ""
    && e.start_year == ""
    && e.end_year == FirstYear(g.head, 0).GetOr("")
    && e.grade == LastGrade(g.body, "")
  }

  lemma EntryOfGroup(g: Group<string>)
    ensures EntryFields(Build(g, Opened, AddGrade), g)
  {
    ExtendAddGrade(Opened(g.head), g.body);
  }

  /** parse_education makes one entry per keyword or year line, in order: the
      line is the institution, its first 20xx year the end_year, the last
      grade line before the next such line the grade; degree and start_year
      stay empty. */
  lemma EducationEntries(text: string)
    ensures var gs := Groups(CleanLines(Split(text, '\n')), IsEduLine);
            var es := ParseEducation(text);
            |es| == |gs| && forall k :: 0 <= k < |es| ==> EntryFields(es[k], gs[k])
  {
    var ls := CleanLines(Split(text, '\n'));
    var gs := Groups(ls, IsEduLine);
    RunIsScan(ls, [], None);
    ScanIsGrouped(ls, [], IsEduLine, Opened, AddGrade);
    assert [] + Builds(gs, Opened, AddGrade) == Builds(gs, Opened, AddGrade);
    forall k | 0 <= k < |gs|
      ensures EntryFields(Build(gs[k], Opened, AddGrade), gs[k])
    {
      EntryOfGroup(gs[k]);
    }
  }

  /** There are exactly as many entries as keyword or year lines, and no entry
      ever gets a degree or a start_year. */
  lemma EducationNeverFillsDegree(text: string)
    ensures var es := ParseEducation(text);
            && |es| == |Filter(CleanLines(Split(text, '\n')), IsEduLine)|
            && forall k :: 0 <= k < |es| ==> es[k].degree == "" && es[k].start_year == ""
  {
    EducationEntries(text);
    HeadsAreOpeners(CleanLines(Split(text, '\n')), IsEduLine);
  }
}
