/** parse_skills: two comma-joined skill buckets. */
module Skills {
  import opened Text

  /** The separator replaced first: the UTF-8 bytes of the bullet U+2022 read
      as Windows-1252 text, "â€¢", three characters. */
  const Bullet: string := "\U{E2}\U{20AC}\U{A2}"

  /** Python's s.replace(pat, rep) for a non-empty pattern: the occurrences,
      found from left to right without overlapping, replaced by `rep`. */
  function Replace(s: string, pat: string, rep: string): string
    requires |pat| > 0
    decreases |s|
  {
    if |s| == 0 then ""
    else if pat <= s then rep + Replace(s[|pat|..], pat, rep)
    else [s[0]] + Replace(s[1..], pat, rep)
  }

  /** Replacing introduces no character but those of `s` and `rep`. */
  lemma {:induction false} ReplaceChars(s: string, pat: string, rep: string, c: char)
    requires |pat| > 0
    requires c !in s && c !in rep
    ensures c !in Replace(s, pat, rep)
    decreases |s|
  {
    if |s| > 0 {
      if pat <= s {
        ReplaceChars(s[|pat|..], pat, rep, c);
      } else {
        ReplaceChars(s[1..], pat, rep, c);
      }
    }
  }

  /** Replacing a one-character pattern removes that character. */
  lemma {:induction false} ReplaceRemoves(s: string, c: char, rep: string)
    requires c !in rep
    ensures c !in Replace(s, [c], rep)
    decreases |s|
  {
    if |s| > 0 {
      if [c] <= s {
        ReplaceRemoves(s[1..], c, rep);
      } else {
        assert s[0] != c;
        ReplaceRemoves(s[1..], c, rep);
      }
    }
  }

  /** Text whose first pattern character does not occur is left alone. */
  lemma {:induction false} ReplaceAbsent(s: string, pat: string, rep: string)
    requires |pat| > 0 && pat[0] !in s
    ensures Replace(s, pat, rep) == s
    decreases |s|
  {
    if |s| > 0 {
      assert !(pat <= s);
      ReplaceAbsent(s[1..], pat, rep);
      assert s == [s[0]] + s[1..];
    }
  }

  /** Replacing a one-character pattern is splitting at it and joining the
      pieces with the replacement: every other character is kept, in order. */
  lemma {:induction false} ReplaceIsJoinSplit(s: string, c: char, rep: string)
    ensures Replace(s, [c], rep) == Join(Split(s, c), rep)
    decreases |s|
  {
    if |s| > 0 {
      ReplaceIsJoinSplit(s[1..], c, rep);
      var rest := Split(s[1..], c);
      if s[0] == c {
        assert [c] <= s;
        assert ([""] + rest)[1..] == rest;
      } else {
        assert !([c] <= s);
        JoinConsFirst([s[0]], rest, rep);
      }
    }
  }

  /** Text in which the pattern does not occur is left as it is. */
  lemma {:induction false} ReplaceKeeps(s: string, pat: string, rep: string)
    requires |pat| > 0 && !Contains(s, pat)
    ensures Replace(s, pat, rep) == s
    decreases |s|
  {
    if |s| > 0 {
      assert !OccursAt(s, 0, pat);
      assert forall i :: OccursAt(s[1..], i, pat) ==> OccursAt(s, i + 1, pat);
      ReplaceKeeps(s[1..], pat, rep);
      assert s == [s[0]] + s[1..];
    }
  }

  /** A front part without the pattern's first character is passed over as it is. */
  lemma {:induction false} ReplaceFront(x: string, y: string, pat: string, rep: string)
    requires |pat| > 0 && pat[0] !in x
    ensures Replace(x + y, pat, rep) == x + Replace(y, pat, rep)
    decreases |x|
  {
    if |x| > 0 {
      assert !(pat <= x + y) by { assert (x + y)[0] == x[0]; }
      assert (x + y)[1..] == x[1..] + y;
      assert Replace(x + y, pat, rep) == [x[0]] + Replace(x[1..] + y, pat, rep);
      ReplaceFront(x[1..], y, pat, rep);
      assert x + Replace(y, pat, rep) == [x[0]] + (x[1..] + Replace(y, pat, rep));
    } else {
      assert x + y == y;
    }
  }

  /** Pieces joined by the pattern, none holding its first character, come
      out joined by the replacement: every piece is kept whole and in order. */
  lemma {:induction false} ReplaceJoin(parts: seq<string>, pat: string, rep: string)
    requires |pat| > 0
    requires forall k :: 0 <= k < |parts| ==> pat[0] !in parts[k]
    ensures Replace(Join(parts, pat), pat, rep) == Join(parts, rep)
    decreases |parts|
  {
    if |parts| == 1 {
      ReplaceAbsent(parts[0], pat, rep);
    } else if |parts| > 1 {
      var rest := Join(parts[1..], pat);
      ReplaceJoin(parts[1..], pat, rep);
      assert parts[0] + pat + rest == parts[0] + (pat + rest);
      ReplaceFront(parts[0], pat + rest, pat, rep);
      assert pat <= pat + rest && (pat + rest)[|pat|..] == rest;
    }
  }

  /** A non-empty replacement none of whose characters is in the pattern. */
  predicate Foreign(rep: string, pat: string) {
    |rep| > 0 && forall k :: 0 <= k < |rep| ==> rep[k] !in pat
  }

  /** A prefix of the result made of pattern characters is a prefix of the
      text: a replacement cannot contribute to it. */
  lemma {:induction false} PrefixKept(t: string, pat: string, rep: string, p: string)
    requires |pat| > 0 && Foreign(rep, pat)
    ensures p <= Replace(t, pat, rep) && (forall k :: 0 <= k < |p| ==> p[k] in pat) ==> p <= t
    decreases |t|
  {
    if |p| > 0 && |t| > 0 {
      if pat <= t {
        assert Replace(t, pat, rep) == rep + Replace(t[|pat|..], pat, rep);
        if p <= Replace(t, pat, rep) {
          assert p[0] == rep[0] && rep[0] !in pat;
        }
      } else {
        PrefixKept(t[1..], pat, rep, p[1..]);
        assert Replace(t, pat, rep) == [t[0]] + Replace(t[1..], pat, rep);
        if p <= Replace(t, pat, rep) {
          assert p[1..] <= Replace(t[1..], pat, rep);
        }
      }
    }
  }

  /** With a replacement foreign to the pattern, no occurrence of the pattern
      is left: the scan removes each one and creates none. */
  lemma {:induction false} ReplaceClears(s: string, pat: string, rep: string)
    requires |pat| > 0 && Foreign(rep, pat)
    ensures !Contains(Replace(s, pat, rep), pat)
    decreases |s|
  {
    if |s| > 0 {
      var out := Replace(s, pat, rep);
      if pat <= s {
        var r := Replace(s[|pat|..], pat, rep);
        ReplaceClears(s[|pat|..], pat, rep);
        assert out == rep + r;
        forall i: int
          ensures !OccursAt(out, i, pat)
        {
          if 0 <= i < |rep| {
            assert pat[0] in pat;
          } else {
            OccursShift(rep, r, i, pat);
          }
        }
      } else {
        var r := Replace(s[1..], pat, rep);
        ReplaceClears(s[1..], pat, rep);
        assert out == [s[0]] + r;
        forall i: int
          ensures !OccursAt(out, i, pat)
        {
          if i == 0 {
            PrefixKept(s, pat, rep, pat);
          } else {
            OccursShift([s[0]], r, i, pat);
          }
        }
      }
    }
  }

  /** An occurrence past the front part `a` is one in the rest. */
  lemma OccursShift(a: string, r: string, i: int, pat: string)
    ensures i >= |a| && OccursAt(a + r, i, pat) ==> OccursAt(r, i - |a|, pat)
  {
    if i >= |a| && OccursAt(a + r, i, pat) {
      assert (a + r)[i..i + |pat|] == r[i - |a|..i - |a| + |pat|];
    }
  }

  /** Replacing one character by another keeps every other position. */
  lemma {:induction false} ReplaceChar(s: string, c: char, d: char)
    ensures |Replace(s, [c], [d])| == |s|
    ensures forall i :: 0 <= i < |s| ==> Replace(s, [c], [d])[i] == if s[i] == c then d else s[i]
    decreases |s|
  {
    if |s| > 0 {
      ReplaceChar(s[1..], c, d);
      assert [c] <= s <==> s[0] == c;
    }
  }

  /** An occurrence of a pattern without `d` after replacing `c` by `d` was
      already there. */
  lemma SwapOccurs(s: string, c: char, d: char, pat: string, i: int)
    requires d !in pat
    ensures OccursAt(Replace(s, [c], [d]), i, pat) ==> OccursAt(s, i, pat)
  {
    var out := Replace(s, [c], [d]);
    ReplaceChar(s, c, d);
    if OccursAt(out, i, pat) {
      forall k | 0 <= k < |pat|
        ensures s[i + k] == pat[k]
      {
        assert out[i..i + |pat|][k] == out[i + k];
        assert pat[k] in pat;
      }
      assert s[i..i + |pat|] == pat;
    }
  }

  /** So such a replacement creates no occurrence of the pattern. */
  lemma SwapKeepsAbsent(s: string, c: char, d: char, pat: string)
    requires d !in pat && !Contains(s, pat)
    ensures !Contains(Replace(s, [c], [d]), pat)
  {
    forall i: int
      ensures !OccursAt(Replace(s, [c], [d]), i, pat)
    {
      SwapOccurs(s, c, d, pat, i);
    }
  }

  /** The bullet glyph, pipes and line feeds, each turned into a comma. */
  function Normalize(text: string): string {
    Replace(Replace(Replace(text, Bullet, ","), "|", ","), "\n", ",")
  }

  /** No bullet is left once the separators are replaced. */
  lemma NormalizeNoBullet(text: string)
    ensures !Contains(Normalize(text), Bullet)
  {
    var a := Replace(text, Bullet, ",");
    ReplaceClears(text, Bullet, ",");
    var b := Replace(a, "|", ",");
    assert "|" == ['|'] && "," == [','] && "\n" == ['\n'];
    SwapKeepsAbsent(a, '|', ',', Bullet);
    SwapKeepsAbsent(b, '\n', ',', Bullet);
  }

  /** Pieces separated by bullets, holding none of the separators, come out
      separated by commas and otherwise unchanged. */
  lemma NormalizeJoin(parts: seq<string>)
    requires forall k :: 0 <= k < |parts| ==> '\U{E2}' !in parts[k] && '|' !in parts[k] && '\n' !in parts[k]
    ensures Normalize(Join(parts, Bullet)) == Join(parts, ",")
  {
    ReplaceJoin(parts, Bullet, ",");
    var a := Join(parts, ",");
    JoinFree(parts, ",", '|');
    ReplaceAbsent(a, "|", ",");
    JoinFree(parts, ",", '\n');
    ReplaceAbsent(a, "\n", ",");
  }

  /** One piece as parse_skills keeps it: trimmed, and only when non-empty
      and shorter than 30 characters. */
  function Kept(piece: string): seq<string> {
    var s := Strip(piece);
    if s != [] && |s| < 30 then [s] else []
  }

  /** The kept pieces, in order. */
  function Keep(pieces: seq<string>): (r: seq<string>)
    ensures |r| <= |pieces|
  {
    if |pieces| == 0 then [] else Kept(pieces[0]) + Keep(pieces[1..])
  }

  /** The skills list parse_skills builds before bucketing. */
  function SkillList(text: string): seq<string> {
    Keep(Split(Normalize(text), ','))
  }

  /** What a kept skill looks like. */
  predicate IsSkill(s: string) {
    s != [] && |s| < 30 && Stripped(s) && ',' !in s
  }

  function Take(xs: seq<string>, n: nat): seq<string> {
    if |xs| <= n then xs else xs[..n]
  }

  function Drop(xs: seq<string>, n: nat): seq<string> {
    if |xs| <= n then [] else xs[n..]
  }

  datatype Buckets = Buckets(primary: string, tools: string)

  /** parse_skills(text): the first five skills joined with ", " as primary,
      the rest joined the same way as tools. */
  function ParseSkills(text: string): Buckets {
    var skills := SkillList(text);
    Buckets(Join(Take(skills, 5), ", "), Join(Drop(skills, 5), ", "))
  }

  /** Reading a bucket back: its comma-separated pieces, trimmed, as kept. */
  function ReadBucket(bucket: string): seq<string> {
    Keep(Split(bucket, ','))
  }

  lemma KeptClean(piece: string, bad: char)
    requires ',' !in piece && bad !in piece
    ensures forall k :: 0 <= k < |Kept(piece)| ==> IsSkill(Kept(piece)[k]) && bad !in Kept(piece)[k]
  {
    StripKeeps(piece, ',');
    StripKeeps(piece, bad);
  }

  lemma {:induction false} KeepPieces(pieces: seq<string>, bad: char)
    requires forall k :: 0 <= k < |pieces| ==> ',' !in pieces[k] && bad !in pieces[k]
    ensures forall k :: 0 <= k < |Keep(pieces)| ==> IsSkill(Keep(pieces)[k]) && bad !in Keep(pieces)[k]
    decreases |pieces|
  {
    if |pieces| > 0 {
      KeepPieces(pieces[1..], bad);
      KeptClean(pieces[0], bad);
    }
  }

  /** A piece is worth keeping when trimming leaves it non-empty and shorter
      than 30 characters. */
  predicate Worth(piece: string) {
    Strip(piece) != [] && |Strip(piece)| < 30
  }

  /** `r` is the trimmed pieces at the strictly increasing indices `idx`, and
      those are exactly the indices of the pieces worth keeping. */
  ghost predicate Selects(pieces: seq<string>, idx: seq<nat>, r: seq<string>) {
    Picks(pieces, idx, r) && Increasing(idx) && Worthy(pieces, idx)
  }

  /** `r` is the trimmed pieces at the indices `idx`. */
  ghost predicate Picks(pieces: seq<string>, idx: seq<nat>, r: seq<string>) {
    && |idx| == |r|
    && forall k :: 0 <= k < |idx| ==> idx[k] < |pieces| && r[k] == Strip(pieces[idx[k]])
  }

  ghost predicate Increasing(idx: seq<nat>) {
    forall k, l :: 0 <= k < l < |idx| ==> idx[k] < idx[l]
  }

  /** The indices `idx` are exactly those of the pieces worth keeping. */
  ghost predicate Worthy(pieces: seq<string>, idx: seq<nat>) {
    forall j :: 0 <= j < |pieces| ==> (Worth(pieces[j]) <==> j in idx)
  }

  function Shift(idx: seq<nat>): (r: seq<nat>)
    ensures |r| == |idx| && forall k :: 0 <= k < |idx| ==> r[k] == idx[k] + 1
  {
    seq(|idx|, k requires 0 <= k < |idx| => idx[k] + 1)
  }

  lemma ShiftIn(idx: seq<nat>, j: nat)
    ensures j in Shift(idx) <==> j >= 1 && j - 1 in idx
  {
    if j in Shift(idx) {
      var k :| 0 <= k < |idx| && Shift(idx)[k] == j;
      assert idx[k] == j - 1;
    }
    if j >= 1 && j - 1 in idx {
      var k :| 0 <= k < |idx| && idx[k] == j - 1;
      assert Shift(idx)[k] == j;
    }
  }

  /** parse_skills keeps a piece, trimmed and in order, exactly when it is
      worth keeping: Keep selects the worthy pieces and no others. */
  lemma {:induction false} KeepSelects(pieces: seq<string>)
    ensures exists idx :: Selects(pieces, idx, Keep(pieces))
    decreases |pieces|
  {
    if |pieces| == 0 {
      var none: seq<nat> := [];
      assert Selects(pieces, none, Keep(pieces));
    } else {
      var rest := pieces[1..];
      KeepSelects(rest);
      var idx' :| Selects(rest, idx', Keep(rest));
      SelectsCons(pieces, idx');
    }
  }

  lemma SelectsCons(pieces: seq<string>, idx': seq<nat>)
    requires |pieces| > 0 && Selects(pieces[1..], idx', Keep(pieces[1..]))
    ensures Selects(pieces, if Worth(pieces[0]) then [0] + Shift(idx') else Shift(idx'), Keep(pieces))
  {
    var idx := if Worth(pieces[0]) then [0] + Shift(idx') else Shift(idx');
    PicksCons(pieces, idx', idx);
    IncreasingCons(idx', idx, Worth(pieces[0]));
    WorthyCons(pieces, idx', idx);
  }

  lemma PicksCons(pieces: seq<string>, idx': seq<nat>, idx: seq<nat>)
    requires |pieces| > 0 && Picks(pieces[1..], idx', Keep(pieces[1..]))
    requires idx == if Worth(pieces[0]) then [0] + Shift(idx') else Shift(idx')
    ensures Picks(pieces, idx, Keep(pieces))
  {
    PicksShift(pieces, idx', Keep(pieces[1..]));
    assert Keep(pieces) == Kept(pieces[0]) + Keep(pieces[1..]);
    if Worth(pieces[0]) {
      PicksHead(pieces, Shift(idx'), Keep(pieces[1..]));
    } else {
      assert Kept(pieces[0]) == [];
    }
  }

  lemma PicksShift(pieces: seq<string>, idx': seq<nat>, r: seq<string>)
    requires |pieces| > 0 && Picks(pieces[1..], idx', r)
    ensures Picks(pieces, Shift(idx'), r)
  {
    var s := Shift(idx');
    forall k | 0 <= k < |s|
      ensures s[k] < |pieces| && r[k] == Strip(pieces[s[k]])
    {
      assert pieces[s[k]] == pieces[1..][idx'[k]];
    }
  }

  lemma PicksHead(pieces: seq<string>, idx: seq<nat>, r: seq<string>)
    requires |pieces| > 0 && Picks(pieces, idx, r)
    ensures Picks(pieces, [0] + idx, [Strip(pieces[0])] + r)
  {
    var idx2, r2 := [0] + idx, [Strip(pieces[0])] + r;
    forall k | 0 < k < |idx2|
      ensures idx2[k] < |pieces| && r2[k] == Strip(pieces[idx2[k]])
    {
      assert idx2[k] == idx[k - 1] && r2[k] == r[k - 1];
    }
  }

  lemma IncreasingCons(idx': seq<nat>, idx: seq<nat>, worth: bool)
    requires Increasing(idx')
    requires idx == if worth then [0] + Shift(idx') else Shift(idx')
    ensures Increasing(idx)
  {
  }

  lemma WorthyCons(pieces: seq<string>, idx': seq<nat>, idx: seq<nat>)
    requires |pieces| > 0 && Worthy(pieces[1..], idx')
    requires idx == if Worth(pieces[0]) then [0] + Shift(idx') else Shift(idx')
    ensures Worthy(pieces, idx)
  {
    var rest := pieces[1..];
    forall j | 0 <= j < |pieces|
      ensures Worth(pieces[j]) <==> j in idx
    {
      ShiftIn(idx', j);
      assert j in idx <==> (j == 0 && Worth(pieces[0])) || j in Shift(idx');
      if j >= 1 {
        assert pieces[j] == rest[j - 1];
        assert Worth(rest[j - 1]) <==> j - 1 in idx';
      }
    }
  }

  /** Every skill is non-empty, trimmed, shorter than 30 characters and free
      of the separators: commas, pipes and line feeds. */
  lemma SkillsAreClean(text: string)
    ensures forall k :: 0 <= k < |SkillList(text)| ==>
              IsSkill(SkillList(text)[k]) && '|' !in SkillList(text)[k] && '\n' !in SkillList(text)[k]
  {
    var a := Replace(text, Bullet, ",");
    var b := Replace(a, "|", ",");
    var c := Replace(b, "\n", ",");
    ReplaceRemoves(a, '|', ",");
    ReplaceChars(b, "\n", ",", '|');
    ReplaceRemoves(b, '\n', ",");
    var pieces := Split(c, ',');
    forall k | 0 <= k < |pieces|
      ensures '|' !in pieces[k] && '\n' !in pieces[k]
    {
      SplitPieceChars(c, ',', k, '|');
      SplitPieceChars(c, ',', k, '\n');
    }
    KeepPieces(pieces, '|');
    KeepPieces(pieces, '\n');
  }

  /** A character absent from the text is absent from every piece of its split. */
  lemma {:induction false} SplitPieceChars(s: string, sep: char, k: nat, c: char)
    requires c !in s && k < |Split(s, sep)|
    ensures c !in Split(s, sep)[k]
    decreases |s|
  {
    if |s| > 0 {
      var rest := Split(s[1..], sep);
      if s[0] == sep {
        if k > 0 {
          SplitPieceChars(s[1..], sep, k - 1, c);
        }
      } else if k == 0 {
        SplitPieceChars(s[1..], sep, 0, c);
      } else {
        SplitPieceChars(s[1..], sep, k, c);
      }
    }
  }

  /** The pieces a ", "-join splits into at its commas: the first item, then
      every later item behind its space. */
  function Spaced(xs: seq<string>): (r: seq<string>)
    ensures |r| == |xs|
  {
    if |xs| == 0 then [] else [xs[0]] + Padded(xs[1..])
  }

  function Padded(xs: seq<string>): (r: seq<string>)
    ensures |r| == |xs|
  {
    if |xs| == 0 then [] else [" " + xs[0]] + Padded(xs[1..])
  }

  lemma {:induction false} JoinPadded(x: string, xs: seq<string>)
    ensures Join([x] + xs, ", ") == Join([x] + Padded(xs), ",")
    decreases |xs|
  {
    if |xs| > 0 {
      JoinPadded(xs[0], xs[1..]);
      var tail := [xs[0]] + Padded(xs[1..]);
      JoinConsFirst(" ", tail, ",");
      assert [" " + tail[0]] + tail[1..] == Padded(xs);
      assert ([x] + xs)[1..] == xs;
      assert ([x] + Padded(xs))[1..] == Padded(xs);
      assert [xs[0]] + xs[1..] == xs;
    }
  }

  lemma JoinSpaced(xs: seq<string>)
    ensures Join(xs, ", ") == Join(Spaced(xs), ",")
  {
    if |xs| > 0 {
      JoinPadded(xs[0], xs[1..]);
      assert [xs[0]] + xs[1..] == xs;
    }
  }

  lemma {:induction false} KeepPadded(xs: seq<string>)
    requires forall k :: 0 <= k < |xs| ==> IsSkill(xs[k])
    ensures Keep(Padded(xs)) == xs
    decreases |xs|
  {
    if |xs| > 0 {
      var ps := Padded(xs);
      assert ps == [" " + xs[0]] + Padded(xs[1..]);
      KeptPadding(xs[0]);
      KeepPadded(xs[1..]);
      calc {
        Keep(ps);
        Kept(ps[0]) + Keep(ps[1..]);
        { assert ps[1..] == Padded(xs[1..]); }
        [xs[0]] + Keep(Padded(xs[1..]));
        [xs[0]] + xs[1..];
        xs;
      }
    }
  }

  /** The space a ", "-join puts before a skill is trimmed away again. */
  lemma KeptPadding(x: string)
    requires IsSkill(x)
    ensures Kept(" " + x) == [x]
  {
    StripSpaceThen(x);
    assert " " + x == [' '] + x;
  }

  lemma KeepSpaced(xs: seq<string>)
    requires forall k :: 0 <= k < |xs| ==> IsSkill(xs[k])
    ensures Keep(Spaced(xs)) == xs
  {
    if |xs| > 0 {
      var sp := Spaced(xs);
      assert sp == [xs[0]] + Padded(xs[1..]);
      assert sp[0] == xs[0] && sp[1..] == Padded(xs[1..]);
      StripStripped(xs[0]);
      KeepPadded(xs[1..]);
      calc {
        Keep(sp);
        Kept(sp[0]) + Keep(sp[1..]);
        [xs[0]] + Keep(Padded(xs[1..]));
        [xs[0]] + xs[1..];
        xs;
      }
    }
  }

  lemma {:induction false} PaddedNoComma(xs: seq<string>)
    requires forall k :: 0 <= k < |xs| ==> IsSkill(xs[k])
    ensures forall k :: 0 <= k < |Padded(xs)| ==> ',' !in Padded(xs)[k]
    decreases |xs|
  {
    if |xs| > 0 {
      PaddedNoComma(xs[1..]);
    }
  }

  lemma SpacedNoComma(xs: seq<string>)
    requires forall k :: 0 <= k < |xs| ==> IsSkill(xs[k])
    ensures forall k :: 0 <= k < |Spaced(xs)| ==> ',' !in Spaced(xs)[k]
  {
    if |xs| > 0 {
      var sp := Spaced(xs);
      PaddedNoComma(xs[1..]);
      forall k | 0 <= k < |sp| ensures ',' !in sp[k] {
        if k > 0 {
          assert sp[k] == Padded(xs[1..])[k - 1];
        }
      }
    }
  }

  /** Reading back a ", "-join of skills gives the skills: the join loses nothing. */
  lemma ReadJoined(xs: seq<string>)
    requires forall k :: 0 <= k < |xs| ==> IsSkill(xs[k])
    ensures ReadBucket(Join(xs, ", ")) == xs
  {
    if |xs| == 0 {
      assert Split("", ',') == [""];
      assert Keep([""]) == [];
    } else {
      ReadJoinedNonEmpty(xs);
    }
  }

  lemma ReadJoinedNonEmpty(xs: seq<string>)
    requires |xs| > 0
    requires forall k :: 0 <= k < |xs| ==> IsSkill(xs[k])
    ensures ReadBucket(Join(xs, ", ")) == xs
  {
    var sp := Spaced(xs);
    JoinSpaced(xs);
    SpacedNoComma(xs);
    SplitJoin(sp, ',');
    KeepSpaced(xs);
  }

  lemma ReadBuckets(skills: seq<string>)
    requires forall k :: 0 <= k < |skills| ==> IsSkill(skills[k])
    ensures ReadBucket(Join(Take(skills, 5), ", ")) == Take(skills, 5)
    ensures ReadBucket(Join(Drop(skills, 5), ", ")) == Drop(skills, 5)
  {
    var front, back := Take(skills, 5), Drop(skills, 5);
    assert forall k :: 0 <= k < |front| ==> front[k] == skills[k];
    assert forall k :: 0 <= k < |back| ==> back[k] == skills[k + 5];
    ReadJoined(front);
    ReadJoined(back);
  }

  /** The buckets read back as the first five skills and the rest, and
      together they are the whole list, in order. */
  lemma SkillBuckets(text: string)
    ensures var skills := SkillList(text);
            var r := ParseSkills(text);
            && ReadBucket(r.primary) == Take(skills, 5)
            && ReadBucket(r.tools) == Drop(skills, 5)
            && Take(skills, 5) + Drop(skills, 5) == skills
            && |Take(skills, 5)| == if |skills| < 5 then |skills| else 5
  {
    var skills := SkillList(text);
    SkillsAreClean(text);
    ReadBuckets(skills);
    assert Take(skills, 5) + Drop(skills, 5) == skills;
  }

  /** A list of clean skills written out with ", " parses back into the
      same list, cut after the fifth. */
  lemma ParseJoined(xs: seq<string>)
    requires forall k :: 0 <= k < |xs| ==> IsSkill(xs[k])
    requires forall k :: 0 <= k < |xs| ==> Bullet[0] !in xs[k] && '|' !in xs[k] && '\n' !in xs[k]
    ensures SkillList(Join(xs, ", ")) == xs
    ensures ParseSkills(Join(xs, ", ")) == Buckets(Join(Take(xs, 5), ", "), Join(Drop(xs, 5), ", "))
  {
    var text := Join(xs, ", ");
    JoinedIsNormal(xs);
    ReadJoined(xs);
    assert SkillList(text) == ReadBucket(text);
  }

  lemma JoinedIsNormal(xs: seq<string>)
    requires forall k :: 0 <= k < |xs| ==> Bullet[0] !in xs[k] && '|' !in xs[k] && '\n' !in xs[k]
    ensures Normalize(Join(xs, ", ")) == Join(xs, ", ")
  {
    JoinFree(xs, ", ", Bullet[0]);
    JoinFree(xs, ", ", '|');
    JoinFree(xs, ", ", '\n');
    NormalizeClean(Join(xs, ", "));
  }

  /** Text without bullets, pipes and line feeds is already normalized. */
  lemma NormalizeClean(text: string)
    requires Bullet[0] !in text && '|' !in text && '\n' !in text
    ensures Normalize(text) == text
  {
    ReplaceAbsent(text, Bullet, ",");
    ReplaceAbsent(text, "|", ",");
    ReplaceAbsent(text, "\n", ",");
  }

  /** The documented example: seven skills, five primary and two tools. */
  lemma SkillsExample()
    ensures ParseSkills("Python, Java, SQL, React, Docker, Git, AWS")
            == Buckets("Python, Java, SQL, React, Docker", "Git, AWS")
  {
    var xs := ["Python", "Java", "SQL", "React", "Docker", "Git", "AWS"];
    SkillsExampleJoins(xs);
    ExampleClean(xs);
    ParseJoined(xs);
  }

  lemma ExampleClean(xs: seq<string>)
    requires xs == ["Python", "Java", "SQL", "React", "Docker", "Git", "AWS"]
    ensures forall k :: 0 <= k < |xs| ==> IsSkill(xs[k])
    ensures forall k :: 0 <= k < |xs| ==> Bullet[0] !in xs[k] && '|' !in xs[k] && '\n' !in xs[k]
  {
  }

  lemma JoinCons(x: string, rest: seq<string>, sep: string)
    requires |rest| > 0
    ensures Join([x] + rest, sep) == x + sep + Join(rest, sep)
  {
    assert ([x] + rest)[1..] == rest;
  }

  lemma ExamplePrimary()
    ensures Join(["Python", "Java", "SQL", "React", "Docker"], ", ") == "Python, Java, SQL, React, Docker"
  {
    var front := ["Docker"];
    JoinCons("React", front, ", ");
    front := ["React"] + front;
    JoinCons("SQL", front, ", ");
    front := ["SQL"] + front;
    JoinCons("Java", front, ", ");
    front := ["Java"] + front;
    JoinCons("Python", front, ", ");
  }

  lemma SkillsExampleJoins(xs: seq<string>)
    requires xs == ["Python", "Java", "SQL", "React", "Docker", "Git", "AWS"]
    ensures Join(xs, ", ") == "Python, Java, SQL, React, Docker, Git, AWS"
    ensures Join(Take(xs, 5), ", ") == "Python, Java, SQL, React, Docker"
    ensures Join(Drop(xs, 5), ", ") == "Git, AWS"
  {
    var front, tools := ["Python", "Java", "SQL", "React", "Docker"], ["Git", "AWS"];
    JoinCons("Git", ["AWS"], ", ");
    ExamplePrimary();
    assert Take(xs, 5) == front;
    assert Drop(xs, 5) == tools;
    assert xs == front + tools;
    JoinAppend(front, tools, ", ");
  }
}
