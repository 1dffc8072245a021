/** The shape shared by every loop of the parser: a line that "opens" an
    entry (a header, a dated line, an institution line, a `Title:` line)
    starts a group, and the lines after it up to the next opener belong to
    that group. This module defines the grouping declaratively, by recursion
    from the front, as a reference the line-by-line loops are proved against. */
module Grouping {
  import opened Wrappers

  datatype Group<T> = Group(head: T, body: seq<T>)

  /** The items before the first opener. */
  function Preamble<T>(xs: seq<T>, opens: T -> bool): (r: seq<T>)
    ensures r <= xs
    ensures forall k :: 0 <= k < |r| ==> !opens(r[k])
    ensures |r| < |xs| ==> opens(xs[|r|])
  {
    if |xs| == 0 || opens(xs[0]) then [] else [xs[0]] + Preamble(xs[1..], opens)
  }

  /** One group per opener, in order, each holding the non-openers that follow it. */
  function Groups<T>(xs: seq<T>, opens: T -> bool): seq<Group<T>> {
    if |xs| == 0 then []
    else (if opens(xs[0]) then [Group(xs[0], Preamble(xs[1..], opens))] else [])
         + Groups(xs[1..], opens)
  }

  function Filter<T>(xs: seq<T>, keep: T -> bool): (r: seq<T>)
    ensures |r| <= |xs|
    ensures forall k :: 0 <= k < |r| ==> keep(r[k])
  {
    if |xs| == 0 then [] else (if keep(xs[0]) then [xs[0]] else []) + Filter(xs[1..], keep)
  }

  /** The items `drop` rejects, in order. */
  function Reject<T>(xs: seq<T>, drop: T -> bool): (r: seq<T>)
    ensures |r| <= |xs|
    ensures forall k :: 0 <= k < |r| ==> !drop(r[k])
  {
    if |xs| == 0 then [] else (if drop(xs[0]) then [] else [xs[0]]) + Reject(xs[1..], drop)
  }

  function Heads<T>(gs: seq<Group<T>>): (r: seq<T>)
    ensures |r| == |gs|
    ensures forall k :: 0 <= k < |gs| ==> r[k] == gs[k].head
  {
    if |gs| == 0 then [] else [gs[0].head] + Heads(gs[1..])
  }

  /** The bodies of the groups, concatenated in order. */
  function Bodies<T>(gs: seq<Group<T>>): seq<T> {
    if |gs| == 0 then [] else gs[0].body + Bodies(gs[1..])
  }

  lemma GroupsOpener<T>(xs: seq<T>, opens: T -> bool)
    requires |xs| > 0 && opens(xs[0])
    ensures Preamble(xs, opens) == []
    ensures Groups(xs, opens) == [Group(xs[0], Preamble(xs[1..], opens))] + Groups(xs[1..], opens)
  {
  }

  lemma GroupsOther<T>(xs: seq<T>, opens: T -> bool)
    requires |xs| > 0 && !opens(xs[0])
    ensures Preamble(xs, opens) == [xs[0]] + Preamble(xs[1..], opens)
    ensures Groups(xs, opens) == Groups(xs[1..], opens)
  {
    assert [] + Groups(xs[1..], opens) == Groups(xs[1..], opens);
  }

  /** Every group starts with an opener and holds no other opener. */
  lemma {:induction false} GroupsWellFormed<T>(xs: seq<T>, opens: T -> bool)
    ensures forall g :: g in Groups(xs, opens) ==>
              opens(g.head) && forall k :: 0 <= k < |g.body| ==> !opens(g.body[k])
    decreases |xs|
  {
    if |xs| > 0 {
      GroupsWellFormed(xs[1..], opens);
    }
  }

  /** The group heads are exactly the openers, in order; so there are as many
      groups as openers. */
  lemma {:induction false} HeadsAreOpeners<T>(xs: seq<T>, opens: T -> bool)
    ensures Heads(Groups(xs, opens)) == Filter(xs, opens)
    ensures |Groups(xs, opens)| == |Filter(xs, opens)|
    decreases |xs|
  {
    if |xs| > 0 {
      HeadsAreOpeners(xs[1..], opens);
      var gs := Groups(xs[1..], opens);
      if opens(xs[0]) {
        var g := Group(xs[0], Preamble(xs[1..], opens));
        assert ([g] + gs)[1..] == gs;
      } else {
        assert [] + gs == gs;
      }
    }
  }

  /** The preamble followed by the group bodies is exactly the non-openers, in
      order: no non-opener is lost, duplicated or moved. */
  lemma {:induction false} BodiesAreTheRest<T>(xs: seq<T>, opens: T -> bool)
    ensures Preamble(xs, opens) + Bodies(Groups(xs, opens)) == Reject(xs, opens)
    decreases |xs|
  {
    if |xs| > 0 {
      BodiesAreTheRest(xs[1..], opens);
      var gs := Groups(xs[1..], opens);
      var p := Preamble(xs[1..], opens);
      if opens(xs[0]) {
        var g := Group(xs[0], p);
        assert ([g] + gs)[1..] == gs;
        assert Bodies([g] + gs) == p + Bodies(gs);
        assert [] + (p + Bodies(gs)) == p + Bodies(gs);
      } else {
        assert [] + gs == gs;
        assert [xs[0]] + p + Bodies(gs) == [xs[0]] + (p + Bodies(gs));
      }
    }
  }

  /** A non-opener in front joins the preamble and leaves the groups alone,
      stated for a preamble that extends the items `buf` before it. */
  lemma PreambleOther<T>(xs: seq<T>, buf: seq<T>, opens: T -> bool)
    requires |xs| > 0 && !opens(xs[0])
    ensures buf + [xs[0]] + Preamble(xs[1..], opens) == buf + Preamble(xs, opens)
    ensures Groups(xs[1..], opens) == Groups(xs, opens)
  {
    GroupsOther(xs, opens);
    Associate(buf, [xs[0]], Preamble(xs[1..], opens));
  }

  lemma Associate<T>(a: seq<T>, b: seq<T>, c: seq<T>)
    ensures a + b + c == a + (b + c)
  {
  }

  /** Without openers there are no groups and everything is preamble. */
  lemma {:induction false} NoOpeners<T>(xs: seq<T>, opens: T -> bool)
    requires forall k :: 0 <= k < |xs| ==> !opens(xs[k])
    ensures Groups(xs, opens) == []
    ensures Preamble(xs, opens) == xs
    decreases |xs|
  {
    if |xs| > 0 {
      NoOpeners(xs[1..], opens);
      assert [xs[0]] + xs[1..] == xs;
    }
  }

  // The parser loops. Each walks the lines once, keeping the finished entries
  // and the open one: an opener closes the open entry and starts a new one,
  // any other line updates the open entry, or is dropped when none is open.

  function Closed<E>(done: seq<E>, cur: Option<E>): seq<E> {
    done + (if cur.Some? then [cur.value] else [])
  }

  /** The loop, one line at a time. */
  function Scan<T, E>(xs: seq<T>, done: seq<E>, cur: Option<E>,
                      opens: T -> bool, start: T -> E, extend: (E, T) -> E): seq<E>
    decreases |xs|
  {
    if |xs| == 0 then Closed(done, cur)
    else if opens(xs[0]) then Scan(xs[1..], Closed(done, cur), Some(start(xs[0])), opens, start, extend)
    else if cur.Some? then Scan(xs[1..], done, Some(extend(cur.value, xs[0])), opens, start, extend)
    else Scan(xs[1..], done, None, opens, start, extend)
  }

  /** `e` updated by each line of `body` in turn. */
  function Extend<T, E>(e: E, body: seq<T>, extend: (E, T) -> E): E {
    if |body| == 0 then e else extend(Extend(e, body[..|body| - 1], extend), body[|body| - 1])
  }

  /** The entry a group makes: started by its head, updated by its body. */
  function Build<T, E>(g: Group<T>, start: T -> E, extend: (E, T) -> E): E {
    Extend(start(g.head), g.body, extend)
  }

  function Builds<T, E>(gs: seq<Group<T>>, start: T -> E, extend: (E, T) -> E): (r: seq<E>)
    ensures |r| == |gs|
    ensures forall k :: 0 <= k < |gs| ==> r[k] == Build(gs[k], start, extend)
  {
    if |gs| == 0 then [] else [Build(gs[0], start, extend)] + Builds(gs[1..], start, extend)
  }

  lemma ExtendSnoc<T, E>(e: E, body: seq<T>, x: T, extend: (E, T) -> E)
    ensures Extend(e, body + [x], extend) == extend(Extend(e, body, extend), x)
  {
    assert (body + [x])[..|body|] == body;
  }

  lemma BuildsCons<T, E>(g: Group<T>, gs: seq<Group<T>>, start: T -> E, extend: (E, T) -> E)
    ensures Builds([g] + gs, start, extend) == [Build(g, start, extend)] + Builds(gs, start, extend)
  {
    assert ([g] + gs)[1..] == gs;
  }

  lemma {:induction false} ScanFromOpen<T, E>(xs: seq<T>, done: seq<E>, h: T, b: seq<T>,
                                             opens: T -> bool, start: T -> E, extend: (E, T) -> E)
    ensures Scan(xs, done, Some(Build(Group(h, b), start, extend)), opens, start, extend)
            == done + [Build(Group(h, b + Preamble(xs, opens)), start, extend)]
               + Builds(Groups(xs, opens), start, extend)
    decreases |xs|, 1
  {
    if |xs| == 0 {
      assert b + [] == b;
    } else if opens(xs[0]) {
      ScanFromOpenAtOpener(xs, done, h, b, opens, start, extend);
    } else {
      ScanFromOpenAtOther(xs, done, h, b, opens, start, extend);
    }
  }

  lemma {:induction false} ScanFromOpenAtOpener<T, E>(xs: seq<T>, done: seq<E>, h: T, b: seq<T>,
                                                     opens: T -> bool, start: T -> E, extend: (E, T) -> E)
    requires |xs| > 0 && opens(xs[0])
    ensures Scan(xs, done, Some(Build(Group(h, b), start, extend)), opens, start, extend)
            == done + [Build(Group(h, b + Preamble(xs, opens)), start, extend)]
               + Builds(Groups(xs, opens), start, extend)
    decreases |xs|, 0
  {
    var cur := Build(Group(h, b), start, extend);
    var x := xs[0];
    var rest := xs[1..];
    var p := Preamble(rest, opens);
    var tail := Builds(Groups(rest, opens), start, extend);
    var g := Build(Group(x, p), start, extend);
    calc {
      Scan(xs, done, Some(cur), opens, start, extend);
      Scan(rest, done + [cur], Some(start(x)), opens, start, extend);
      { assert start(x) == Build(Group(x, []), start, extend); }
      Scan(rest, done + [cur], Some(Build(Group(x, []), start, extend)), opens, start, extend);
      { ScanFromOpen(rest, done + [cur], x, [], opens, start, extend);
        assert [] + p == p; }
      done + [cur] + [g] + tail;
      done + [cur] + ([g] + tail);
      { BuildsCons(Group(x, p), Groups(rest, opens), start, extend);
        GroupsOpener(xs, opens);
        assert b + Preamble(xs, opens) == b; }
      done + [Build(Group(h, b + Preamble(xs, opens)), start, extend)]
      + Builds(Groups(xs, opens), start, extend);
    }
  }

  lemma {:induction false} ScanFromOpenAtOther<T, E>(xs: seq<T>, done: seq<E>, h: T, b: seq<T>,
                                                    opens: T -> bool, start: T -> E, extend: (E, T) -> E)
    requires |xs| > 0 && !opens(xs[0])
    ensures Scan(xs, done, Some(Build(Group(h, b), start, extend)), opens, start, extend)
            == done + [Build(Group(h, b + Preamble(xs, opens)), start, extend)]
               + Builds(Groups(xs, opens), start, extend)
    decreases |xs|, 0
  {
    var cur := Build(Group(h, b), start, extend);
    var x := xs[0];
    var rest := xs[1..];
    var p := Preamble(rest, opens);
    var tail := Builds(Groups(rest, opens), start, extend);
    calc {
      Scan(xs, done, Some(cur), opens, start, extend);
      Scan(rest, done, Some(extend(cur, x)), opens, start, extend);
      { ExtendSnoc(start(h), b, x, extend); }
      Scan(rest, done, Some(Build(Group(h, b + [x]), start, extend)), opens, start, extend);
      { ScanFromOpen(rest, done, h, b + [x], opens, start, extend); }
      done + [Build(Group(h, b + [x] + p), start, extend)] + tail;
      { PreambleOther(xs, b, opens); }
      done + [Build(Group(h, b + Preamble(xs, opens)), start, extend)]
      + Builds(Groups(xs, opens), start, extend);
    }
  }

  /** The loop, started with nothing open, makes one entry per group, in
      order: the lines before the first opener are dropped. */
  lemma {:induction false} ScanIsGrouped<T, E>(xs: seq<T>, done: seq<E>,
                                              opens: T -> bool, start: T -> E, extend: (E, T) -> E)
    ensures Scan(xs, done, None, opens, start, extend)
            == done + Builds(Groups(xs, opens), start, extend)
    decreases |xs|
  {
    if |xs| == 0 {
      assert done + [] == done;
    } else {
      var x := xs[0];
      var rest := xs[1..];
      if opens(x) {
        var p := Preamble(rest, opens);
        var tail := Builds(Groups(rest, opens), start, extend);
        calc {
          Scan(xs, done, None, opens, start, extend);
          { assert Closed(done, None) == done; }
          Scan(rest, done, Some(start(x)), opens, start, extend);
          { assert start(x) == Build(Group(x, []), start, extend); }
          Scan(rest, done, Some(Build(Group(x, []), start, extend)), opens, start, extend);
          { ScanFromOpen(rest, done, x, [], opens, start, extend);
            assert [] + p == p; }
          done + [Build(Group(x, p), start, extend)] + tail;
          { BuildsCons(Group(x, p), Groups(rest, opens), start, extend);
            GroupsOpener(xs, opens); }
          done + Builds(Groups(xs, opens), start, extend);
        }
      } else {
        GroupsOther(xs, opens);
        ScanIsGrouped(rest, done, opens, start, extend);
      }
    }
  }
}
