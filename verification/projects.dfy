/** parse_projects: `Title: description` entries. */
module Projects {
  import opened Wrappers
  import opened Text
  import opened Grouping

  datatype Entry = Entry(title: string, description: string, tech_stack: string, url: string)

  /** The text before the first colon: the first piece of the line split at colons. */
  function BeforeColon(line: string): string {
    Split(line, ':')[0]
  }

  /** The text after the first colon: the second half of a split at the first
      colon only, i.e. the remaining pieces joined back with their colons. */
  function AfterColon(line: string): string {
    Join(Split(line, ':')[1..], ":")
  }

  /** A line that starts an entry: it has a colon, and fewer than 30
      characters precede the first one. */
  predicate IsTitleLine(line: string) {
    ':' in line && |BeforeColon(line)| < 30
  }

  /** A line with a colon is its text before the first colon, the colon, and
      its text after. */
  lemma ColonSplit(line: string)
    requires ':' in line
    ensures line == BeforeColon(line) + ":" + AfterColon(line)
    ensures ':' !in BeforeColon(line)
  {
    var parts := Split(line, ':');
    JoinSplit(line, ':');
  }

  /** The entry a title line opens. */
  function Opened(line: string): Entry {
    Entry(Strip(BeforeColon(line)), Strip(AfterColon(line)), "", "")
  }

  /** A later line, appended to the open entry's description after a line feed. */
  function AddLine(e: Entry, line: string): Entry {
    e.(description := e.description + "\n" + line)
  }

  /** parse_projects(text): the loop over the stripped lines (blank ones are
      skipped) where a title line closes the open entry and opens a new one
      and any other line extends the open entry's description. */
  function ParseProjects(text: string): seq<Entry> {
    Scan(CleanLines(Split(text, '\n')), [], None, IsTitleLine, Opened, AddLine)
  }

  /** Each line preceded by a line feed. */
  function Continued(body: seq<string>): string {
    if |body| == 0 then "" else Continued(body[..|body| - 1]) + "\n" + body[|body| - 1]
  }

  lemma {:induction false} ExtendAddLine(e: Entry, body: seq<string>)
    ensures Extend(e, body, AddLine) == e.(description := e.description + Continued(body))
    decreases |body|
  {
    if |body| > 0 {
      ExtendAddLine(e, body[..|body| - 1]);
    }
  }

  /** The fields of the entry a group of lines makes. */
  predicate EntryFields(e: Entry, g: Group<string>) {
    && e.title == Strip(BeforeColon(g.head))
    && e.description == Strip(AfterColon(g.head)) + Continued(g.body)
    && e.tech_stack == ""
    && e.url == ""
  }

  /** parse_projects makes one entry per title line, in order: the trimmed
      text around its first colon as title and description, the lines up to
      the next title line appended to the description, tech_stack and url
      empty. */
  lemma ProjectEntries(text: string)
    ensures var gs := Groups(CleanLines(Split(text, '\n')), IsTitleLine);
            var es := ParseProjects(text);
            |es| == |gs| && forall k :: 0 <= k < |es| ==> EntryFields(es[k], gs[k])
  {
    var ls := CleanLines(Split(text, '\n'));
    var gs := Groups(ls, IsTitleLine);
    ScanIsGrouped(ls, [], IsTitleLine, Opened, AddLine);
    assert [] + Builds(gs, Opened, AddLine) == Builds(gs, Opened, AddLine);
    forall k | 0 <= k < |gs|
      ensures EntryFields(Build(gs[k], Opened, AddLine), gs[k])
    {
      ExtendAddLine(Opened(gs[k].head), gs[k].body);
    }
  }

  /** There is one entry per title line, and every title is shorter than 30
      characters and holds no colon. */
  lemma ProjectTitles(text: string)
    ensures var ls := CleanLines(Split(text, '\n'));
            var es := ParseProjects(text);
            && |es| == |Filter(ls, IsTitleLine)|
            && forall k :: 0 <= k < |es| ==> |es[k].title| < 30 && ':' !in es[k].title
  {
    var ls := CleanLines(Split(text, '\n'));
    var gs := Groups(ls, IsTitleLine);
    ProjectEntries(text);
    HeadsAreOpeners(ls, IsTitleLine);
    GroupsWellFormed(ls, IsTitleLine);
    forall k | 0 <= k < |gs|
      ensures |Strip(BeforeColon(gs[k].head))| < 30 && ':' !in Strip(BeforeColon(gs[k].head))
    {
      assert gs[k] in gs;
      ColonSplit(gs[k].head);
      StripKeeps(BeforeColon(gs[k].head), ':');
    }
  }
}
