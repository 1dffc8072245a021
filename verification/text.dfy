/** String primitives the parser relies on, written out over `seq<char>`:
    Python's str.strip, str.lower, `in`, str.split with a one-character
    separator, str.join, and the leftmost-match search of re.search.
    Character classes are the ASCII parts of Python's. */
module Text {
  import opened Wrappers
  import opened Grouping

  /** Python's str.isspace (and the regex class \s) on ASCII: tab, line feed,
      vertical tab, form feed, carriage return, the separators 0x1C-0x1F and
      the space. */
  predicate IsSpace(c: char) {
    c == ' ' || 9 <= c as int <= 13 || 28 <= c as int <= 31
  }

  /** The regex class \d on ASCII. */
  predicate IsDigit(c: char) {
    '0' <= c <= '9'
  }

  /** The regex class \w on ASCII. */
  predicate IsWordChar(c: char) {
    'a' <= c <= 'z' || 'A' <= c <= 'Z' || IsDigit(c) || c == '_'
  }

  predicate AllSpace(s: string) {
    forall i :: 0 <= i < |s| ==> IsSpace(s[i])
  }

  /** No leading and no trailing whitespace: the strings str.strip() returns. */
  predicate Stripped(s: string) {
    s == [] || (!IsSpace(s[0]) && !IsSpace(s[|s| - 1]))
  }

  /** Start of the run of whitespace that ends at `j`, looking no further
      back than `lo`. */
  function TrailStart(s: string, lo: nat, j: nat): (b: nat)
    requires lo <= j <= |s|
    ensures lo <= b <= j
    ensures forall k :: b <= k < j ==> IsSpace(s[k])
    ensures b == lo || !IsSpace(s[b - 1])
    decreases j
  {
    if lo < j && IsSpace(s[j - 1]) then TrailStart(s, lo, j - 1) else j
  }

  /** `r` is `s[i..]` up to some point, with only whitespace around it. */
  predicate Inside(s: string, i: int, r: string) {
    && 0 <= i <= |s| - |r| && r == s[i..i + |r|]
    && AllSpace(s[..i]) && AllSpace(s[i + |r|..])
  }

  /** Python's str.strip(): `s` less its leading and trailing whitespace. */
  function Strip(s: string): (r: string)
    ensures Stripped(r)
    ensures exists i :: Inside(s, i, r)
    ensures |r| <= |s|
  {
    var a := RunEnd(s, 0, IsSpace);
    var b := TrailStart(s, a, |s|);
    assert AllSpace(s[..a]) && AllSpace(s[b..]);
    assert Inside(s, a, s[a..b]);
    s[a..b]
  }

  lemma StripEmpty()
    ensures Strip("") == ""
  {
  }

  /** Stripping removes characters only: it adds none. */
  lemma StripKeeps(s: string, c: char)
    requires c !in s
    ensures c !in Strip(s)
  {
    var i :| Inside(s, i, Strip(s));
    InsideKeeps(s, i, Strip(s), c);
  }

  lemma InsideKeeps(s: string, i: int, r: string, c: char)
    requires Inside(s, i, r) && c !in s
    ensures c !in r
  {
    assert forall k :: 0 <= k < |r| ==> r[k] == s[i + k];
  }

  /** Stripping leaves a stripped string alone. */
  lemma StripStripped(s: string)
    requires Stripped(s)
    ensures Strip(s) == s
  {
  }

  /** The one space ", "-joining puts before an item is stripped off again. */
  lemma StripSpaceThen(s: string)
    requires Stripped(s)
    ensures Strip([' '] + s) == s
  {
    assert ([' '] + s)[1..] == s;
  }

  /** Python's str.lower() on ASCII letters. */
  function LowerChar(c: char): char {
    if 'A' <= c <= 'Z' then (c as int + 32) as char else c
  }

  function Lower(s: string): (r: string)
    ensures |r| == |s|
    ensures forall i :: 0 <= i < |s| ==> r[i] == LowerChar(s[i])
  {
    seq(|s|, i requires 0 <= i < |s| => LowerChar(s[i]))
  }

  /** `pat` occurs in `s` starting at index `i`. */
  predicate OccursAt(s: string, i: int, pat: string) {
    0 <= i <= |s| - |pat| && s[i..i + |pat|] == pat
  }

  /** Python's `pat in s`. */
  function Contains(s: string, pat: string): (b: bool)
    ensures b <==> exists i :: OccursAt(s, i, pat)
    decreases |s|
  {
    if pat <= s then
      assert OccursAt(s, 0, pat);
      true
    else if |s| == 0 then
      false
    else
      assert forall i :: OccursAt(s[1..], i, pat) ==> OccursAt(s, i + 1, pat);
      assert forall i :: OccursAt(s, i, pat) ==> i == 0 || OccursAt(s[1..], i - 1, pat);
      Contains(s[1..], pat)
  }

  /** `pat` (given in lower case) occurs at index `i` of `s`, ignoring the case of
      `s`: a literal under re.IGNORECASE. */
  predicate OccursAtIgnoreCase(s: string, i: int, pat: string) {
    0 <= i <= |s| - |pat| && Lower(s[i..i + |pat|]) == pat
  }

  /** Number of occurrences of `c` in `s`. */
  function Count(s: string, c: char): nat {
    if |s| == 0 then 0 else (if s[0] == c then 1 else 0) + Count(s[1..], c)
  }

  /** Python's s.split(sep) for a one-character separator. */
  function Split(s: string, sep: char): (r: seq<string>)
    ensures |r| == Count(s, sep) + 1
    ensures forall k :: 0 <= k < |r| ==> sep !in r[k]
    ensures r[0] <= s && (|r[0]| < |s| ==> s[|r[0]|] == sep)
    decreases |s|
  {
    if |s| == 0 then [""]
    else
      var rest := Split(s[1..], sep);
      if s[0] == sep then [""] + rest
      else [[s[0]] + rest[0]] + rest[1..]
  }

  /** Python's sep.join(parts). */
  function Join(parts: seq<string>, sep: string): string {
    if |parts| == 0 then ""
    else if |parts| == 1 then parts[0]
    else parts[0] + sep + Join(parts[1..], sep)
  }

  lemma JoinConsFirst(x: string, parts: seq<string>, sep: string)
    requires |parts| >= 1
    ensures Join([x + parts[0]] + parts[1..], sep) == x + Join(parts, sep)
  {
    var ps := [x + parts[0]] + parts[1..];
    assert ps[1..] == parts[1..];
  }

  /** A character in none of the pieces and not in the separator is not in the join. */
  lemma {:induction false} JoinFree(parts: seq<string>, sep: string, c: char)
    requires c !in sep
    requires forall k :: 0 <= k < |parts| ==> c !in parts[k]
    ensures c !in Join(parts, sep)
    decreases |parts|
  {
    if |parts| > 1 {
      JoinFree(parts[1..], sep, c);
    }
  }

  /** Joining two non-empty runs of pieces: the two joins around one separator. */
  lemma {:induction false} JoinAppend(a: seq<string>, b: seq<string>, sep: string)
    requires |a| > 0 && |b| > 0
    ensures Join(a + b, sep) == Join(a, sep) + sep + Join(b, sep)
    decreases |a|
  {
    if |a| == 1 {
      assert (a + b)[1..] == b;
    } else {
      JoinAppend(a[1..], b, sep);
      assert (a + b)[1..] == a[1..] + b;
    }
  }

  /** Joining the pieces of a split with the separator gives back the text. */
  lemma {:induction false} JoinSplit(s: string, sep: char)
    ensures Join(Split(s, sep), [sep]) == s
    decreases |s|
  {
    if |s| > 0 {
      JoinSplit(s[1..], sep);
      var rest := Split(s[1..], sep);
      if s[0] == sep {
        assert ([""] + rest)[1..] == rest;
        assert Join([""] + rest, [sep]) == [sep] + Join(rest, [sep]);
      } else {
        JoinConsFirst([s[0]], rest, [sep]);
      }
      Uncons(s, []);
    }
  }

  lemma {:induction false} SplitAfterFree(a: string, t: string, sep: char)
    requires sep !in a
    ensures Split(a + t, sep) == [a + Split(t, sep)[0]] + Split(t, sep)[1..]
    decreases |a|
  {
    var st := Split(t, sep);
    if |a| == 0 {
      assert a + t == t;
      assert a + st[0] == st[0];
    } else {
      SplitAfterFree(a[1..], t, sep);
      var u := a[1..] + t;
      var r := Split(u, sep);
      assert r[0] == a[1..] + st[0] && r[1..] == st[1..];
      Uncons(a, t);
      SplitCons(a[0], u, sep);
      assert [a[0]] + r[0] == a + st[0];
    }
  }

  lemma Uncons(a: string, t: string)
    requires |a| > 0
    ensures a + t == [a[0]] + (a[1..] + t)
  {
    assert a == [a[0]] + a[1..];
  }

  /** Splitting behind a character other than the separator: it joins the first piece. */
  lemma SplitCons(c: char, t: string, sep: char)
    requires c != sep
    ensures Split([c] + t, sep) == [[c] + Split(t, sep)[0]] + Split(t, sep)[1..]
  {
    assert ([c] + t)[1..] == t;
  }

  /** Splitting a join of separator-free pieces gives back the pieces. */
  lemma {:induction false} SplitJoin(parts: seq<string>, sep: char)
    requires |parts| >= 1
    requires forall k :: 0 <= k < |parts| ==> sep !in parts[k]
    ensures Split(Join(parts, [sep]), sep) == parts
    decreases |parts|
  {
    if |parts| == 1 {
      SplitAfterFree(parts[0], "", sep);
      assert parts[0] + "" == parts[0];
    } else {
      var rest := Join(parts[1..], [sep]);
      SplitJoin(parts[1..], sep);
      assert Join(parts, [sep]) == parts[0] + ([sep] + rest);
      SplitAfterFree(parts[0], [sep] + rest, sep);
      assert ([sep] + rest)[1..] == rest;
      assert Split([sep] + rest, sep) == [""] + parts[1..];
      assert parts[0] + "" == parts[0];
      assert [parts[0]] + parts[1..] == parts;
    }
  }

  /** The stripped non-blank lines, in order: each line is stripped, and the
      lines that strip to nothing are dropped. */
  function CleanLines(lines: seq<string>): (r: seq<string>)
    ensures |r| <= |lines|
    ensures forall k :: 0 <= k < |r| ==> r[k] != [] && Stripped(r[k])
  {
    if |lines| == 0 then []
    else
      var l := Strip(lines[0]);
      (if l == [] then [] else [l]) + CleanLines(lines[1..])
  }

  /** Every line stripped, one for one. */
  function StripAll(lines: seq<string>): (r: seq<string>)
    ensures |r| == |lines| && forall k :: 0 <= k < |lines| ==> r[k] == Strip(lines[k])
  {
    seq(|lines|, k requires 0 <= k < |lines| => Strip(lines[k]))
  }

  predicate NonBlank(line: string) {
    line != []
  }

  /** The clean lines are exactly the stripped lines that are not empty, in
      their original order. */
  lemma {:induction false} CleanLinesFilter(lines: seq<string>)
    ensures CleanLines(lines) == Filter(StripAll(lines), NonBlank)
    decreases |lines|
  {
    if |lines| > 0 {
      CleanLinesFilter(lines[1..]);
      assert StripAll(lines)[1..] == StripAll(lines[1..]);
    }
  }

  /** End of the longest run of characters accepted by `p` that starts at `j`:
      the greedy repetition `[...]*`. */
  function RunEnd(s: string, j: nat, p: char -> bool): (e: nat)
    requires j <= |s|
    ensures j <= e <= |s|
    ensures forall k :: j <= k < e ==> p(s[k])
    ensures e == |s| || !p(s[e])
    decreases |s| - j
  {
    if j < |s| && p(s[j]) then RunEnd(s, j + 1, p) else j
  }

  /** The run is taken whole: it ends at the first index past `j` whose
      character fails `p`. */
  lemma {:induction false} RunEndAt(s: string, j: nat, p: char -> bool, e: nat)
    requires j <= e <= |s|
    requires forall k :: j <= k < e ==> p(s[k])
    requires e == |s| || !p(s[e])
    ensures RunEnd(s, j, p) == e
    decreases e - j
  {
    if j < e {
      RunEndAt(s, j + 1, p, e);
    }
  }

  /** Leftmost match, as re.search finds it: the first index from `from` on at
      which the matcher `at` succeeds, paired with the end of that match. */
  function Search(s: string, at: (string, nat) -> Option<nat>, from: nat): (r: Option<(nat, nat)>)
    ensures r.Some? ==> from <= r.value.0 <= |s| && at(s, r.value.0) == Some(r.value.1)
    ensures r.Some? ==> forall j: nat :: from <= j < r.value.0 ==> at(s, j).None?
    ensures r.None? ==> forall j: nat :: from <= j <= |s| ==> at(s, j).None?
    decreases |s| + 1 - from
  {
    if from > |s| then None
    else
      match at(s, from)
      case Some(e) => Some((from, e))
      case None => Search(s, at, from + 1)
  }

  /** The regex `20\d{2}` matches at index `i`. */
  predicate YearAt(s: string, i: int) {
    0 <= i && i + 4 <= |s| && s[i] == '2' && s[i + 1] == '0' && IsDigit(s[i + 2]) && IsDigit(s[i + 3])
  }

  /** The leftmost year of the form 20dd, from index `from` on, as the year
      search in the education parser finds it. */
  function FirstYear(s: string, from: nat): (r: Option<string>)
    ensures r.None? <==> forall i :: from <= i < |s| ==> !YearAt(s, i)
    ensures r.Some? ==> exists i :: from <= i < |s| && YearAt(s, i) && r.value == s[i..i + 4]
                                    && forall j :: from <= j < i ==> !YearAt(s, j)
    decreases |s| - from
  {
    if from >= |s| then None
    else if YearAt(s, from) then Some(s[from..from + 4])
    else FirstYear(s, from + 1)
  }
}
