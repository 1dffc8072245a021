/** segment_sections: the text cut at header lines into named sections. */
module Sections {
  import opened Wrappers
  import opened Text
  import opened Grouping

  /** The section keys with their trigger phrases, in the dictionary's order:
      the first key with a matching trigger wins. */
  const Keywords: seq<(string, seq<string>)> := [
    ("experience", ["experience", "work history", "employment"]),
    ("education", ["education", "academic background"]),
    ("projects", ["projects", "personal projects", "academic projects"]),
    ("skills", ["skills", "technical skills", "technologies", "competencies"]),
    ("achievements", ["achievements", "awards", "certifications"])
  ]

  /** The name of the text before the first header. */
  const Preface: string := "header"

  /** Python's any(trigger in clean for trigger in triggers). */
  function AnyIn(clean: string, triggers: seq<string>): (b: bool)
    ensures b <==> exists i :: 0 <= i < |triggers| && Contains(clean, triggers[i])
  {
    if |triggers| == 0 then false
    else if Contains(clean, triggers[0]) then true
    else
      assert forall i :: 1 <= i < |triggers| ==> triggers[i] == triggers[1..][i - 1];
      AnyIn(clean, triggers[1..])
  }

  /** The first key of `table` one of whose triggers occurs in `clean`. */
  function FirstKey(clean: string, table: seq<(string, seq<string>)>): (r: Option<string>)
    ensures r.None? <==> forall i :: 0 <= i < |table| ==> !AnyIn(clean, table[i].1)
    ensures r.Some? ==> exists i :: 0 <= i < |table| && table[i].0 == r.value
                          && AnyIn(clean, table[i].1)
                          && forall j :: 0 <= j < i ==> !AnyIn(clean, table[j].1)
  {
    if |table| == 0 then None
    else if AnyIn(clean, table[0].1) then Some(table[0].0)
    else
      var r := FirstKey(clean, table[1..]);
      assert forall i :: 1 <= i < |table| ==> table[i] == table[1..][i - 1];
      if r.Some? then
        var i :| 0 <= i < |table[1..]| && table[1..][i].0 == r.value
                 && AnyIn(clean, table[1..][i].1)
                 && forall j :: 0 <= j < i ==> !AnyIn(clean, table[1..][j].1);
        assert table[i + 1].0 == r.value && AnyIn(clean, table[i + 1].1);
        assert forall j :: 0 <= j < i + 1 ==> !AnyIn(clean, table[j].1);
        r
      else
        r
  }

  /** The section a line opens, if it is a header: its stripped, lower-cased
      form is shorter than 30 characters and holds a trigger. */
  function HeaderKey(line: string): (r: Option<string>)
    ensures r.Some? <==> |Lower(Strip(line))| < 30 && FirstKey(Lower(Strip(line)), Keywords).Some?
    ensures r.Some? ==> r == FirstKey(Lower(Strip(line)), Keywords)
  {
    var clean := Lower(Strip(line));
    if |clean| < 30 then FirstKey(clean, Keywords) else None
  }

  /** The header test of a key function. */
  function Opens(key: string -> Option<string>): string -> bool {
    line => key(line).Some?
  }

  // The loop as written. The header test is a parameter, `key`, so that the
  // proofs about the loop do not look inside it; segment_sections uses
  // HeaderKey.

  datatype Segmenter = Segmenter(sections: map<string, string>, current: string, buffer: seq<string>)

  /** A buffer that holds lines is written under the current name, its lines
      joined with line feeds; an empty buffer writes nothing. */
  function Flush(s: Segmenter): map<string, string> {
    if |s.buffer| > 0 then s.sections[s.current := Join(s.buffer, "\n")] else s.sections
  }

  function Step(s: Segmenter, line: string, key: string -> Option<string>): Segmenter {
    match key(line)
    case Some(k) => Segmenter(Flush(s), k, [])
    case None => s.(buffer := s.buffer + [line])
  }

  function Run(lines: seq<string>, s: Segmenter, key: string -> Option<string>): Segmenter
    decreases |lines|
  {
    if |lines| == 0 then s else Run(lines[1..], Step(s, lines[0], key), key)
  }

  function Segment(lines: seq<string>, key: string -> Option<string>): map<string, string> {
    Flush(Run(lines, Segmenter(map[], Preface, []), key))
  }

  /** segment_sections(text). */
  function SegmentSections(text: string): map<string, string> {
    Segment(Split(text, '\n'), HeaderKey)
  }

  // The reference: the lines cut into named blocks, written into the map in
  // order; an empty block writes nothing.

  datatype Block = Block(name: string, lines: seq<string>)

  function Named(gs: seq<Group<string>>, key: string -> Option<string>): (r: seq<Block>)
    ensures |r| == |gs|
    ensures forall i :: 0 <= i < |gs| ==> r[i] == Block(key(gs[i].head).GetOr(Preface), gs[i].body)
  {
    if |gs| == 0 then []
    else [Block(key(gs[0].head).GetOr(Preface), gs[0].body)] + Named(gs[1..], key)
  }

  /** A blank line is no header: no trigger occurs in the empty text. */
  lemma BlankIsNoHeader(line: string)
    requires Strip(line) == []
    ensures HeaderKey(line).None?
  {
    var clean := Lower(Strip(line));
    assert clean == [];
    forall i | 0 <= i < |Keywords| ensures !AnyIn(clean, Keywords[i].1) {
      forall t | t in Keywords[i].1 ensures !Contains(clean, t) {
        assert |t| > 0;
      }
    }
  }

  /** The text before the first header, then one block per header. */
  function Blocks(lines: seq<string>, key: string -> Option<string>): seq<Block> {
    [Block(Preface, Preamble(lines, Opens(key)))] + Named(Groups(lines, Opens(key)), key)
  }

  /** Some block named `k` has lines. */
  predicate Filled(bs: seq<Block>, k: string) {
    exists i :: 0 <= i < |bs| && bs[i].name == k && |bs[i].lines| > 0
  }

  function Put(m: map<string, string>, b: Block): map<string, string> {
    if |b.lines| > 0 then m[b.name := Join(b.lines, "\n")] else m
  }

  function Write(m: map<string, string>, bs: seq<Block>): map<string, string>
    decreases |bs|
  {
    if |bs| == 0 then m else Write(Put(m, bs[0]), bs[1..])
  }

  lemma WriteCons(m: map<string, string>, b: Block, bs: seq<Block>)
    ensures Write(m, [b] + bs) == Write(Put(m, b), bs)
  {
    assert ([b] + bs)[1..] == bs;
  }

  lemma {:induction false} RunIsWrite(lines: seq<string>, m: map<string, string>, cur: string,
                                      buf: seq<string>, key: string -> Option<string>)
    ensures Flush(Run(lines, Segmenter(m, cur, buf), key))
            == Write(m, [Block(cur, buf + Preamble(lines, Opens(key)))]
                        + Named(Groups(lines, Opens(key)), key))
    decreases |lines|
  {
    if |lines| == 0 {
      assert buf + [] == buf;
      WriteCons(m, Block(cur, buf), []);
    } else if key(lines[0]).Some? {
      RunIsWriteAtHeader(lines, m, cur, buf, key);
    } else {
      RunIsWriteAtOther(lines, m, cur, buf, key);
    }
  }

  lemma {:induction false} RunIsWriteAtHeader(lines: seq<string>, m: map<string, string>, cur: string,
                                              buf: seq<string>, key: string -> Option<string>)
    requires |lines| > 0 && key(lines[0]).Some?
    ensures Flush(Run(lines, Segmenter(m, cur, buf), key))
            == Write(m, [Block(cur, buf + Preamble(lines, Opens(key)))]
                        + Named(Groups(lines, Opens(key)), key))
    decreases |lines|, 0
  {
    var x, rest := lines[0], lines[1..];
    var k := key(x).value;
    var s := Segmenter(m, cur, buf);
    var p := Preamble(rest, Opens(key));
    var tail := Named(Groups(rest, Opens(key)), key);
    assert Opens(key)(x);
    GroupsOpener(lines, Opens(key));
    assert Named(Groups(lines, Opens(key)), key) == [Block(k, p)] + tail;
    calc {
      Flush(Run(lines, s, key));
      Flush(Run(rest, Segmenter(Flush(s), k, []), key));
      { RunIsWrite(rest, Flush(s), k, [], key);
        assert [] + p == p; }
      Write(Flush(s), [Block(k, p)] + tail);
      { WriteCons(m, Block(cur, buf), [Block(k, p)] + tail); }
      Write(m, [Block(cur, buf)] + ([Block(k, p)] + tail));
      { assert buf + Preamble(lines, Opens(key)) == buf; }
      Write(m, [Block(cur, buf + Preamble(lines, Opens(key)))] + Named(Groups(lines, Opens(key)), key));
    }
  }

  lemma {:induction false} RunIsWriteAtOther(lines: seq<string>, m: map<string, string>, cur: string,
                                             buf: seq<string>, key: string -> Option<string>)
    requires |lines| > 0 && key(lines[0]).None?
    ensures Flush(Run(lines, Segmenter(m, cur, buf), key))
            == Write(m, [Block(cur, buf + Preamble(lines, Opens(key)))]
                        + Named(Groups(lines, Opens(key)), key))
    decreases |lines|, 0
  {
    var x, rest := lines[0], lines[1..];
    var gs := Named(Groups(lines, Opens(key)), key);
    RunOther(lines, m, cur, buf, key);
    RunIsWrite(rest, m, cur, buf + [x], key);
    OtherBlocks(lines, buf, key);
    assert Flush(Run(lines, Segmenter(m, cur, buf), key))
           == Write(m, [Block(cur, buf + [x] + Preamble(rest, Opens(key)))] + Named(Groups(rest, Opens(key)), key));
  }

  lemma RunOther(lines: seq<string>, m: map<string, string>, cur: string,
                 buf: seq<string>, key: string -> Option<string>)
    requires |lines| > 0 && key(lines[0]).None?
    ensures Run(lines, Segmenter(m, cur, buf), key) == Run(lines[1..], Segmenter(m, cur, buf + [lines[0]]), key)
  {
    assert Step(Segmenter(m, cur, buf), lines[0], key) == Segmenter(m, cur, buf + [lines[0]]);
  }

  lemma OtherBlocks(lines: seq<string>, buf: seq<string>, key: string -> Option<string>)
    requires |lines| > 0 && key(lines[0]).None?
    ensures buf + [lines[0]] + Preamble(lines[1..], Opens(key)) == buf + Preamble(lines, Opens(key))
    ensures Named(Groups(lines[1..], Opens(key)), key) == Named(Groups(lines, Opens(key)), key)
  {
    assert !Opens(key)(lines[0]);
    PreambleOther(lines, buf, Opens(key));
  }

  /** The loop writes exactly the blocks: the text before the first header
      under "header", then each header's lines under its key, in order. */
  lemma SegmentIsWrite(lines: seq<string>, key: string -> Option<string>)
    ensures Segment(lines, key) == Write(map[], Blocks(lines, key))
  {
    RunIsWrite(lines, map[], Preface, [], key);
    assert [] + Preamble(lines, Opens(key)) == Preamble(lines, Opens(key));
  }

  /** A key is in the written map iff it was there already or some non-empty
      block carries it. */
  lemma {:induction false} WriteKeys(m: map<string, string>, bs: seq<Block>, k: string)
    ensures k in Write(m, bs) <==> k in m || Filled(bs, k)
    decreases |bs|
  {
    if |bs| > 0 {
      WriteKeys(Put(m, bs[0]), bs[1..], k);
      assert forall i :: 1 <= i < |bs| ==> bs[i] == bs[1..][i - 1];
    }
  }

  /** A key's value is the join of the last non-empty block carrying it: a
      later section of the same name overwrites an earlier one. */
  lemma {:induction false} WriteLastWins(m: map<string, string>, bs: seq<Block>, k: string, i: nat)
    requires i < |bs| && bs[i].name == k && |bs[i].lines| > 0
    requires forall j :: i < j < |bs| ==> bs[j].name != k || |bs[j].lines| == 0
    ensures k in Write(m, bs) && Write(m, bs)[k] == Join(bs[i].lines, "\n")
    decreases |bs|
  {
    if i == 0 {
      WriteUntouched(Put(m, bs[0]), bs[1..], k);
    } else {
      WriteLastWins(Put(m, bs[0]), bs[1..], k, i - 1);
    }
  }

  /** Blocks that do not carry `k`, or are empty, leave its entry alone. */
  lemma {:induction false} WriteUntouched(m: map<string, string>, bs: seq<Block>, k: string)
    requires forall j :: 0 <= j < |bs| ==> bs[j].name != k || |bs[j].lines| == 0
    ensures k in Write(m, bs) <==> k in m
    ensures k in m ==> Write(m, bs)[k] == m[k]
    decreases |bs|
  {
    if |bs| > 0 {
      WriteUntouched(Put(m, bs[0]), bs[1..], k);
    }
  }

  /** The keys written are the block names. */
  lemma {:induction false} WriteNames(m: map<string, string>, bs: seq<Block>)
    ensures forall k :: k in Write(m, bs) ==> k in m || exists i :: 0 <= i < |bs| && bs[i].name == k
    decreases |bs|
  {
    if |bs| > 0 {
      WriteNames(Put(m, bs[0]), bs[1..]);
      assert forall i :: 1 <= i < |bs| ==> bs[i] == bs[1..][i - 1];
    }
  }

  /** A section is present iff its block in the reference is non-empty. */
  lemma Present(lines: seq<string>, key: string -> Option<string>, k: string)
    ensures var bs := Blocks(lines, key);
            k in Segment(lines, key) <==> Filled(bs, k)
  {
    SegmentIsWrite(lines, key);
    WriteKeys(map[], Blocks(lines, key), k);
  }

  lemma SectionPresent(text: string, k: string)
    ensures var bs := Blocks(Split(text, '\n'), HeaderKey);
            k in SegmentSections(text) <==> Filled(bs, k)
  {
    Present(Split(text, '\n'), HeaderKey, k);
  }

  /** A section's text is its last non-empty block's lines, joined with line feeds. */
  lemma SectionText(text: string, k: string, i: nat)
    requires var bs := Blocks(Split(text, '\n'), HeaderKey);
             && i < |bs| && bs[i].name == k && |bs[i].lines| > 0
             && forall j :: i < j < |bs| ==> bs[j].name != k || |bs[j].lines| == 0
    ensures var bs := Blocks(Split(text, '\n'), HeaderKey);
            k in SegmentSections(text) && SegmentSections(text)[k] == Join(bs[i].lines, "\n")
  {
    SegmentIsWrite(Split(text, '\n'), HeaderKey);
    WriteLastWins(map[], Blocks(Split(text, '\n'), HeaderKey), k, i);
  }

  /** Every section name is "header" or the key of one of the lines. */
  lemma Names(lines: seq<string>, key: string -> Option<string>)
    ensures forall k :: k in Segment(lines, key) ==>
              k == Preface || exists l :: l in lines && key(l) == Some(k)
  {
    var bs := Blocks(lines, key);
    var gs := Groups(lines, Opens(key));
    SegmentIsWrite(lines, key);
    WriteNames(map[], bs);
    GroupHeadsIn(lines, Opens(key));
    forall k | k in Segment(lines, key)
      ensures k == Preface || exists l :: l in lines && key(l) == Some(k)
    {
      var i :| 0 <= i < |bs| && bs[i].name == k;
      if i > 0 {
        assert bs[i] == Named(gs, key)[i - 1];
        var line := gs[i - 1].head;
        assert gs[i - 1] in gs;
        assert Opens(key)(line);
        assert line in lines && key(line) == Some(k);
      }
    }
  }

  lemma {:induction false} GroupHeadsIn(lines: seq<string>, opens: string -> bool)
    ensures forall g :: g in Groups(lines, opens) ==> g.head in lines && opens(g.head)
    decreases |lines|
  {
    if |lines| > 0 {
      GroupHeadsIn(lines[1..], opens);
    }
  }

  /** A header's key is one of the five keyword keys. */
  lemma HeaderKeyIsKeyword(line: string)
    ensures HeaderKey(line).Some? ==> exists i :: 0 <= i < |Keywords| && Keywords[i].0 == HeaderKey(line).value
  {
  }

  /** Every section key is "header" or one of the five keyword keys. */
  lemma SectionNames(text: string)
    ensures forall k :: k in SegmentSections(text) ==>
              k == Preface || exists i :: 0 <= i < |Keywords| && Keywords[i].0 == k
  {
    Names(Split(text, '\n'), HeaderKey);
    forall l: string { HeaderKeyIsKeyword(l); }
  }

  /** No header line ends up in a section, and no other line is lost: the
      blocks' lines, in order, are exactly the non-header lines. */
  lemma BlocksAreTheOtherLines(lines: seq<string>, key: string -> Option<string>)
    ensures Concat(Blocks(lines, key)) == Reject(lines, Opens(key))
  {
    var gs := Groups(lines, Opens(key));
    BodiesAreTheRest(lines, Opens(key));
    NamedBodies(gs, key);
    assert Blocks(lines, key)[1..] == Named(gs, key);
  }

  function Concat(bs: seq<Block>): seq<string> {
    if |bs| == 0 then [] else bs[0].lines + Concat(bs[1..])
  }

  lemma {:induction false} NamedBodies(gs: seq<Group<string>>, key: string -> Option<string>)
    ensures Concat(Named(gs, key)) == Bodies(gs)
    decreases |gs|
  {
    if |gs| > 0 {
      NamedBodies(gs[1..], key);
      assert Named(gs, key)[1..] == Named(gs[1..], key);
    }
  }

  /** Text without a header line is one section, "header", holding the whole
      text (even the empty text: its one line is the empty line). */
  lemma NoHeaders(text: string)
    requires forall k :: 0 <= k < |Split(text, '\n')| ==> HeaderKey(Split(text, '\n')[k]).None?
    ensures SegmentSections(text) == map[Preface := text]
  {
    var lines := Split(text, '\n');
    NoOpeners(lines, Opens(HeaderKey));
    SegmentIsWrite(lines, HeaderKey);
    JoinSplit(text, '\n');
    assert Blocks(lines, HeaderKey) == [Block(Preface, lines)];
    WriteCons(map[], Block(Preface, lines), []);
  }

  /** The empty text is one empty "header" section. */
  lemma EmptyText()
    ensures SegmentSections("") == map[Preface := ""]
  {
    var lines := Split("", '\n');
    assert lines == [""];
    StripEmpty();
    BlankIsNoHeader("");
    assert forall k :: 0 <= k < |lines| ==> HeaderKey(lines[k]).None?;
    NoHeaders("");
  }
}
