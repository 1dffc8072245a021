/** parse_experience: job entries keyed on lines that carry a date. */
module Experience {
  import opened Wrappers
  import opened Text
  import opened Grouping

  datatype Entry = Entry(title: string, company: string, start_date: string,
                         end_date: string, description: string)

  /** The detection regex `(19|20)\d{2}` (case-sensitive) matches at index `i`. */
  predicate CenturyYearAt(s: string, i: int) {
    0 <= i && i + 4 <= |s| && (s[i..i + 2] == "19" || s[i..i + 2] == "20")
    && IsDigit(s[i + 2]) && IsDigit(s[i + 3])
  }

  /** The case-sensitive detection regex `((19|20)\d{2}|Present|Current)`
      matches somewhere in `line`: the line opens a new job entry. */
  predicate IsDateLine(line: string) {
    || (exists i :: 0 <= i < |line| && CenturyYearAt(line, i))
    || Contains(line, "Present")
    || Contains(line, "Current")
  }

  const Months: seq<string> :=
    ["jan", "feb", "mar", "apr", "may", "jun", "jul", "aug", "sep", "oct", "nov", "dec"]

  /** A month abbreviation, in any case, at index `i`. */
  predicate MonthAt(s: string, i: int) {
    0 <= i && i + 3 <= |s| && Lower(s[i..i + 3]) in Months
  }

  /** The strings the extraction regex
      `(?:Jan|...|Dec)?\s?20\d{2}|Present` (case-insensitive) can match:
      a 20xx year, optionally preceded by one whitespace character, a month
      abbreviation, or both; or "present" in any case. */
  predicate IsDateToken(t: string) {
    || (|t| == 4 && YearAt(t, 0))
    || (|t| == 5 && IsSpace(t[0]) && YearAt(t, 1))
    || (|t| == 7 && MonthAt(t, 0) && YearAt(t, 3))
    || (|t| == 8 && MonthAt(t, 0) && IsSpace(t[3]) && YearAt(t, 4))
    || Lower(t) == "present"
  }

  /** Length of the extraction regex's match at index `i`, 0 when it does not
      match there. The branches follow the regex engine's backtracking order:
      month, space and year; month and year; space and year; year alone; and
      only then the alternative "Present". */
  function DateTokenAt(s: string, i: nat): (n: nat)
    ensures n == 0 || i + n <= |s|
  {
    if MonthAt(s, i) && i + 3 < |s| && IsSpace(s[i + 3]) && YearAt(s, i + 4) then 8
    else if MonthAt(s, i) && YearAt(s, i + 3) then 7
    else if i < |s| && IsSpace(s[i]) && YearAt(s, i + 1) then 5
    else if YearAt(s, i) then 4
    else if OccursAtIgnoreCase(s, i, "present") then 7
    else 0
  }

  /** What the regex matches at `i` is a date token. */
  lemma DateTokenShape(s: string, i: nat)
    ensures DateTokenAt(s, i) == 0 || IsDateToken(s[i..i + DateTokenAt(s, i)])
  {
    if MonthAt(s, i) && i + 3 < |s| && IsSpace(s[i + 3]) && YearAt(s, i + 4) {
      TokenIn(s, i, 8);
    } else if MonthAt(s, i) && YearAt(s, i + 3) {
      TokenIn(s, i, 7);
    } else {
      UndatedShape(s, i);
    }
  }

  lemma UndatedShape(s: string, i: nat)
    requires !(MonthAt(s, i) && i + 3 < |s| && IsSpace(s[i + 3]) && YearAt(s, i + 4))
    requires !(MonthAt(s, i) && YearAt(s, i + 3))
    ensures DateTokenAt(s, i) == 0 || IsDateToken(s[i..i + DateTokenAt(s, i)])
  {
    if i < |s| && IsSpace(s[i]) && YearAt(s, i + 1) {
      TokenIn(s, i, 5);
    } else if YearAt(s, i) {
      TokenIn(s, i, 4);
    } else if OccursAtIgnoreCase(s, i, "present") {
      PresentIn(s, i);
    }
  }

  lemma PresentIn(s: string, i: nat)
    requires OccursAtIgnoreCase(s, i, "present")
    ensures IsDateToken(s[i..i + 7])
  {
  }

  /** The token shapes, read off the text at `i`, are date tokens as slices. */
  lemma TokenIn(s: string, i: nat, n: nat)
    requires i + n <= |s|
    requires n == 8 ==> MonthAt(s, i) && IsSpace(s[i + 3]) && YearAt(s, i + 4)
    requires n == 7 ==> MonthAt(s, i) && YearAt(s, i + 3)
    requires n == 5 ==> IsSpace(s[i]) && YearAt(s, i + 1)
    requires n == 4 ==> YearAt(s, i)
    requires 4 <= n <= 8 && n != 6
    ensures IsDateToken(s[i..i + n])
  {
    var t := s[i..i + n];
    if n == 8 {
      MonthIn(s, i, 8);
      YearIn(s, i, 8, 4);
      assert t[3] == s[i + 3];
    } else if n == 7 {
      MonthIn(s, i, 7);
      YearIn(s, i, 7, 3);
    } else if n == 5 {
      YearIn(s, i, 5, 1);
      assert t[0] == s[i];
    } else {
      YearIn(s, i, 4, 0);
    }
  }

  /** A month at `i` is a month at the start of any slice from `i` that holds it. */
  lemma MonthIn(s: string, i: nat, n: nat)
    requires 3 <= n && i + n <= |s| && MonthAt(s, i)
    ensures MonthAt(s[i..i + n], 0)
  {
    assert s[i..i + n][..3] == s[i..i + 3];
  }

  /** A year at `i + k` is a year at `k` of any slice from `i` that holds it. */
  lemma YearIn(s: string, i: nat, n: nat, k: nat)
    requires k + 4 <= n && i + n <= |s| && YearAt(s, i + k)
    ensures YearAt(s[i..i + n], k)
  {
  }

  /** No match of the extraction regex starts in `s[from..to]`. */
  predicate NoDateIn(s: string, from: nat, to: nat) {
    forall j :: from <= j < to ==> DateTokenAt(s, j) == 0
  }

  /** re.findall of the extraction regex over `s[from..]`: the non-overlapping
      matches, from left to right. */
  function FindDates(s: string, from: nat): (r: seq<string>)
    ensures forall k :: 0 <= k < |r| ==> IsDateToken(r[k])
    decreases |s| - from
  {
    if from >= |s| then []
    else
      var n := DateTokenAt(s, from);
      DateTokenShape(s, from);
      if n > 0 then [s[from..from + n]] + FindDates(s, from + n)
      else FindDates(s, from + 1)
  }

  /** A month abbreviation starts with a letter other than p: not a space,
      not the first digit of a year, not the start of "present". */
  lemma MonthHead(s: string, i: nat)
    requires MonthAt(s, i)
    ensures !IsSpace(s[i]) && s[i] != '2' && LowerChar(s[i]) != 'p'
  {
    assert Lower(s[i..i + 3])[0] == LowerChar(s[i]);
  }

  lemma NotMonth(s: string, i: nat)
    requires i < |s| && (IsSpace(s[i]) || s[i] == '2' || LowerChar(s[i]) == 'p')
    ensures !MonthAt(s, i)
  {
    if MonthAt(s, i) {
      MonthHead(s, i);
    }
  }

  /** A month or a year inside a slice from `i` is one in the text. */
  lemma MonthOf(s: string, i: nat, n: nat)
    requires 3 <= n && i + n <= |s| && MonthAt(s[i..i + n], 0)
    ensures MonthAt(s, i)
  {
    assert s[i..i + n][0..3] == s[i..i + 3];
  }

  lemma YearOf(s: string, i: nat, n: nat, k: nat)
    requires k + 4 <= n && i + n <= |s| && YearAt(s[i..i + n], k)
    ensures YearAt(s, i + k)
  {
    assert s[i..i + n][k] == s[i + k] && s[i..i + n][k + 1] == s[i + k + 1];
    assert s[i..i + n][k + 2] == s[i + k + 2] && s[i..i + n][k + 3] == s[i + k + 3];
  }

  /** Wherever a date token occurs, the regex matches there with exactly that
      length: at one index the token shapes cannot be confused, so the
      engine's preference order never picks another one. */
  lemma DateTokenComplete(s: string, i: nat, n: nat)
    requires i + n <= |s| && IsDateToken(s[i..i + n])
    ensures DateTokenAt(s, i) == n
  {
    var t := s[i..i + n];
    if |t| == 8 && MonthAt(t, 0) && IsSpace(t[3]) && YearAt(t, 4) {
      MonthOf(s, i, n);
      assert s[i + 3] == t[3];
      YearOf(s, i, n, 4);
    } else if |t| == 7 && MonthAt(t, 0) && YearAt(t, 3) {
      MonthOf(s, i, n);
      YearOf(s, i, n, 3);
    } else if |t| == 5 && IsSpace(t[0]) && YearAt(t, 1) {
      assert s[i] == t[0];
      YearOf(s, i, n, 1);
      NotMonth(s, i);
    } else if |t| == 4 && YearAt(t, 0) {
      YearOf(s, i, n, 0);
      NotMonth(s, i);
    } else {
      PresentAt(s, i, n);
    }
  }

  lemma PresentAt(s: string, i: nat, n: nat)
    requires i + n <= |s| && Lower(s[i..i + n]) == "present"
    ensures DateTokenAt(s, i) == n
  {
    var t := s[i..i + n];
    assert Lower(t)[0] == LowerChar(s[i]);
    NotMonth(s, i);
    assert OccursAtIgnoreCase(s, i, "present");
  }

  /** Every date token is at least four characters long. */
  lemma TokenLength(t: string)
    requires IsDateToken(t)
    ensures |t| >= 4
  {
    if Lower(t) == "present" {
      assert |Lower(t)| == |t|;
    }
  }

  /** The `n` characters of `s` from index `i` are a date token. */
  predicate TokenAt(s: string, i: nat, n: nat) {
    i + n <= |s| && IsDateToken(s[i..i + n])
  }

  /** No date token starts in `s[from..to]`: the extraction regex matches at
      none of those indices. */
  ghost predicate NoTokenIn(s: string, from: nat, to: nat) {
    forall j: nat, n: nat :: from <= j < to ==> !TokenAt(s, j, n)
  }

  /** The matcher fails exactly where no date token starts. */
  lemma NoDateInIff(s: string, from: nat, to: nat)
    ensures NoDateIn(s, from, to) <==> NoTokenIn(s, from, to)
  {
    TokensMatch(s, from, to);
    MatchesAreTokens(s, from, to);
  }

  lemma TokensMatch(s: string, from: nat, to: nat)
    ensures forall j: nat, n: nat :: from <= j < to && TokenAt(s, j, n) ==> DateTokenAt(s, j) == n > 0
  {
    forall j: nat, n: nat | from <= j < to && TokenAt(s, j, n)
      ensures DateTokenAt(s, j) == n > 0
    {
      DateTokenComplete(s, j, n);
      TokenLength(s[j..j + n]);
    }
  }

  lemma MatchesAreTokens(s: string, from: nat, to: nat)
    ensures forall j :: from <= j < to && DateTokenAt(s, j) > 0 ==> TokenAt(s, j, DateTokenAt(s, j))
  {
    forall j | from <= j < to && DateTokenAt(s, j) > 0
      ensures TokenAt(s, j, DateTokenAt(s, j))
    {
      DateTokenShape(s, j);
    }
  }

  lemma {:induction false} NoMatchFound(s: string, from: nat)
    ensures |FindDates(s, from)| == 0 <==> NoDateIn(s, from, |s|)
    decreases |s| - from
  {
    if from < |s| {
      if DateTokenAt(s, from) == 0 {
        NoMatchFound(s, from + 1);
        assert NoDateIn(s, from, |s|) <==> NoDateIn(s, from + 1, |s|);
      }
    }
  }

  /** findall finds nothing exactly when no date token occurs. */
  lemma NoDatesFound(s: string, from: nat)
    ensures |FindDates(s, from)| == 0 <==> NoTokenIn(s, from, |s|)
  {
    NoMatchFound(s, from);
    NoDateInIff(s, from, |s|);
  }

  lemma {:induction false} FirstMatch(s: string, from: nat) returns (i: nat)
    requires |FindDates(s, from)| > 0
    ensures from <= i < |s| && DateTokenAt(s, i) > 0 && NoDateIn(s, from, i)
    decreases |s| - from
  {
    if DateTokenAt(s, from) == 0 {
      i := FirstMatch(s, from + 1);
      assert NoDateIn(s, from, i);
    } else {
      i := from;
      assert NoDateIn(s, from, from);
    }
  }

  /** Indices where the regex does not match are passed over. */
  lemma {:induction false} SkipUndated(s: string, from: nat, i: nat)
    requires from <= i <= |s| && NoDateIn(s, from, i)
    ensures FindDates(s, from) == FindDates(s, i)
    decreases i - from
  {
    if from < i {
      SkipUndated(s, from + 1, i);
    }
  }

  /** The first date found is the token at the leftmost index where one
      occurs, and findall goes on from the end of that token: so the second
      date, when there is one, is the leftmost token after the first. */
  lemma FirstDateIsLeftmost(s: string, from: nat)
    requires |FindDates(s, from)| > 0
    ensures exists i: nat, n: nat ::
              && from <= i && TokenAt(s, i, n)
              && NoTokenIn(s, from, i)
              && FindDates(s, from) == [s[i..i + n]] + FindDates(s, i + n)
  {
    var i := FirstMatch(s, from);
    var n := DateTokenAt(s, i);
    DatesAt(s, from, i);
    LeftmostToken(s, from, i);
    assert TokenAt(s, i, n) && NoTokenIn(s, from, i);
  }

  /** A match at `i` with none before it is a date token with no token before it. */
  lemma LeftmostToken(s: string, from: nat, i: nat)
    requires from <= i < |s| && DateTokenAt(s, i) > 0 && NoDateIn(s, from, i)
    ensures TokenAt(s, i, DateTokenAt(s, i)) && NoTokenIn(s, from, i)
  {
    MatchesAreTokens(s, i, i + 1);
    NoDateInIff(s, from, i);
  }

  /** findall from `from` reaches the first match at `i` and resumes after it. */
  lemma DatesAt(s: string, from: nat, i: nat)
    requires from <= i < |s| && DateTokenAt(s, i) > 0 && NoDateIn(s, from, i)
    ensures FindDates(s, from) == [s[i..i + DateTokenAt(s, i)]] + FindDates(s, i + DateTokenAt(s, i))
  {
    SkipUndated(s, from, i);
  }

  /** The entry a dated line opens: the whole line as title, the first
      extracted date as start, the second as end ("Present" when there is only
      one), no company and no description yet. */
  function Opened(line: string): Entry {
    var dates := FindDates(line, 0);
    var e := Entry(line, "", "", "", "");
    if |dates| == 0 then e
    else e.(start_date := dates[0], end_date := if |dates| > 1 then dates[1] else "Present")
  }

  /** The extraction regex's optional \s is taken: a year behind a space is
      extracted with the space, and a lone date leaves the end "Present". */
  lemma SpacedYearExample()
    ensures Opened("X 2020") == Entry("X 2020", "", " 2020", "Present", "")
  {
    var s := "X 2020";
    assert DateTokenAt(s, 0) == 0 by {
      assert !MonthAt(s, 0) by { assert Lower(s[0..3]) == "x 2"; }
    }
    assert DateTokenAt(s, 1) == 5 by {
      assert !MonthAt(s, 1) by { assert Lower(s[1..4]) == " 20"; }
      assert YearAt(s, 2);
    }
    assert s[1..6] == " 2020";
    assert FindDates(s, 6) == [];
    assert FindDates(s, 0) == [" 2020"];
  }

  /** A line that is not dated, added to the open entry's description. */
  function AddLine(e: Entry, line: string): Entry {
    e.(description := e.description + line + "\n")
  }

  /** parse_experience(text): the loop over the stripped lines (blank ones are
      skipped) where a dated line closes the open entry and opens a new one and
      any other line extends the open entry's description. */
  function ParseExperience(text: string): seq<Entry> {
    Scan(CleanLines(Split(text, '\n')), [], None, IsDateLine, Opened, AddLine)
  }

  /** Lines each followed by a line feed. */
  function Described(body: seq<string>): string {
    if |body| == 0 then "" else Described(body[..|body| - 1]) + body[|body| - 1] + "\n"
  }

  lemma {:induction false} ExtendAddLine(e: Entry, body: seq<string>)
    ensures Extend(e, body, AddLine) == e.(description := e.description + Described(body))
    decreases |body|
  {
    if |body| > 0 {
      ExtendAddLine(e, body[..|body| - 1]);
    }
  }

  /** start_date and end_date as the extraction regex gives them for the title. */
  predicate DatesFromTitle(e: Entry) {
    var dates := FindDates(e.title, 0);
    && (|dates| == 0 ==> e.start_date == "" && e.end_date == "")
    && (|dates| >= 1 ==> e.start_date == dates[0])
    && (|dates| == 1 ==> e.end_date == "Present")
    && (|dates| >= 2 ==> e.end_date == dates[1])
  }

  /** The entry a group of lines makes: titled with the dated line, dated
      from it, described by the lines after it. */
  lemma EntryOfGroup(g: Group<string>)
    ensures EntryFields(Build(g, Opened, AddLine), g)
  {
    ExtendAddLine(Opened(g.head), g.body);
  }

  /** The fields of the entry a group of lines makes. */
  predicate EntryFields(e: Entry, g: Group<string>) {
    && e.title == g.head
    && e.company == ""
    && DatesFromTitle(e)
    && e.description == Described(g.body)
  }

  /** parse_experience makes one entry per group of the non-blank stripped
      lines (a dated line and the undated lines up to the next one), in order:
      titled with the dated line, no company, dates extracted from the title,
      the group's other lines each followed by a line feed as description. */
  lemma ExperienceEntries(text: string)
    ensures var gs := Groups(CleanLines(Split(text, '\n')), IsDateLine);
            var es := ParseExperience(text);
            |es| == |gs| && forall k :: 0 <= k < |es| ==> EntryFields(es[k], gs[k])
  {
    var ls := CleanLines(Split(text, '\n'));
    var gs := Groups(ls, IsDateLine);
    ScanIsGrouped(ls, [], IsDateLine, Opened, AddLine);
    assert [] + Builds(gs, Opened, AddLine) == Builds(gs, Opened, AddLine);
    forall k | 0 <= k < |gs|
      ensures EntryFields(Build(gs[k], Opened, AddLine), gs[k])
    {
      EntryOfGroup(gs[k]);
    }
  }

  /** The titles are the dated non-blank stripped lines, in document order. */
  lemma ExperienceTitles(text: string)
    ensures var ls := CleanLines(Split(text, '\n'));
            var es := ParseExperience(text);
            |es| == |Filter(ls, IsDateLine)|
            && forall k :: 0 <= k < |es| ==> es[k].title == Filter(ls, IsDateLine)[k]
  {
    var ls := CleanLines(Split(text, '\n'));
    ExperienceEntries(text);
    HeadsAreOpeners(ls, IsDateLine);
  }

  lemma DescribedSnoc(body: seq<string>, line: string)
    ensures Described(body + [line]) == Described(body) + line + "\n"
  {
    assert (body + [line])[..|body|] == body;
  }

  lemma DescribedAppend(a: seq<string>, b: seq<string>)
    ensures Described(a + b) == Described(a) + Described(b)
    decreases |b|
  {
    if |b| > 0 {
      DescribedAppend(a, b[..|b| - 1]);
      assert a + b == (a + b[..|b| - 1]) + [b[|b| - 1]];
      assert b == b[..|b| - 1] + [b[|b| - 1]];
      DescribedSnoc(a + b[..|b| - 1], b[|b| - 1]);
      DescribedSnoc(b[..|b| - 1], b[|b| - 1]);
    } else {
      assert a + b == a;
    }
  }

  /** All descriptions, concatenated. */
  function AllDescriptions(es: seq<Entry>): string {
    if |es| == 0 then "" else es[0].description + AllDescriptions(es[1..])
  }

  lemma {:induction false} AllDescriptionsOfGroups(gs: seq<Group<string>>)
    ensures AllDescriptions(Builds(gs, Opened, AddLine)) == Described(Bodies(gs))
    decreases |gs|
  {
    if |gs| > 0 {
      AllDescriptionsOfGroups(gs[1..]);
      EntryOfGroup(gs[0]);
      DescribedAppend(gs[0].body, Bodies(gs[1..]));
      assert Builds(gs, Opened, AddLine)[1..] == Builds(gs[1..], Opened, AddLine);
    }
  }

  /** Every undated non-blank line lands in exactly one description, in order,
      except those before the first dated line, which are dropped. */
  lemma ExperienceKeepsUndatedLines(text: string)
    ensures var ls := CleanLines(Split(text, '\n'));
            Described(Preamble(ls, IsDateLine)) + AllDescriptions(ParseExperience(text))
            == Described(Reject(ls, IsDateLine))
  {
    var ls := CleanLines(Split(text, '\n'));
    var gs := Groups(ls, IsDateLine);
    ScanIsGrouped(ls, [], IsDateLine, Opened, AddLine);
    assert [] + Builds(gs, Opened, AddLine) == Builds(gs, Opened, AddLine);
    AllDescriptionsOfGroups(gs);
    BodiesAreTheRest(ls, IsDateLine);
    DescribedAppend(Preamble(ls, IsDateLine), Bodies(gs));
  }
}
