/** The contact fields parse_resume reads off the whole text: the first
    e-mail address, the first phone number and the headline. */
module Contact {
  import opened Wrappers
  import opened Text

  // E-mail: the regex `[\w\.-]+@[\w\.-]+`.

  /** The regex class [\w\.-]. */
  predicate IsEmailChar(c: char) {
    IsWordChar(c) || c == '.' || c == '-'
  }

  /** `[\w\.-]+@[\w\.-]+` matches from `i` to `e` with its '@' at `a`. Since
      '@' is not in the class, the first run must stop right at the '@', and
      the second run is taken whole. */
  predicate IsEmailMatch(s: string, i: nat, a: nat, e: nat) {
    && i < a < e <= |s|
    && (forall k :: i <= k < a ==> IsEmailChar(s[k]))
    && s[a] == '@'
    && a + 1 < e
    && (forall k :: a < k < e ==> IsEmailChar(s[k]))
    && (e == |s| || !IsEmailChar(s[e]))
  }

  /** The end of the e-mail match at `i`, if there is one. */
  function EmailAt(s: string, i: nat): (r: Option<nat>)
    ensures r.Some? ==> exists a :: IsEmailMatch(s, i, a, r.value)
  {
    if i > |s| then None
    else
      var a := RunEnd(s, i, IsEmailChar);
      if i < a && a + 1 < |s| && s[a] == '@' && IsEmailChar(s[a + 1]) then
        var e := RunEnd(s, a + 1, IsEmailChar);
        assert IsEmailMatch(s, i, a, e);
        Some(e)
      else
        None
  }

  /** Every way the pattern can match at `i` is the one EmailAt finds. */
  lemma EmailAtComplete(s: string, i: nat, a: nat, e: nat)
    requires IsEmailMatch(s, i, a, e)
    ensures EmailAt(s, i) == Some(e)
  {
    RunEndAt(s, i, IsEmailChar, a);
    RunEndAt(s, a + 1, IsEmailChar, e);
  }

  lemma EmailAtNone(s: string, i: nat)
    ensures EmailAt(s, i).None? ==> forall a: nat, e: nat :: !IsEmailMatch(s, i, a, e)
  {
    forall a: nat, e: nat | IsEmailMatch(s, i, a, e) ensures EmailAt(s, i).Some? {
      EmailAtComplete(s, i, a, e);
    }
  }

  function EmailMatcher(): (string, nat) -> Option<nat> {
    (s: string, i: nat) => EmailAt(s, i)
  }

  /** The whole of the leftmost e-mail match in the text, if any. */
  function Email(text: string): Option<string> {
    match Search(text, EmailMatcher(), 0)
    case Some((i, e)) => Some(text[i..e])
    case None => None
  }

  /** The e-mail found is the leftmost match, and there is one iff the text
      holds the pattern anywhere. */
  lemma EmailIsLeftmost(text: string)
    ensures Email(text).None? <==> forall i: nat, a: nat, e: nat :: !IsEmailMatch(text, i, a, e)
    ensures Email(text).Some? ==>
              exists i: nat, a: nat, e: nat ::
                && IsEmailMatch(text, i, a, e)
                && Email(text).value == text[i..e]
                && forall j: nat, a': nat, e': nat :: j < i ==> !IsEmailMatch(text, j, a', e')
  {
    var r := Search(text, EmailMatcher(), 0);
    if r.Some? {
      var i, e := r.value.0, r.value.1;
      assert EmailAt(text, i) == Some(e);
      var a :| IsEmailMatch(text, i, a, e);
      forall j: nat, a': nat, e': nat | j < i ensures !IsEmailMatch(text, j, a', e') {
        assert EmailMatcher()(text, j).None?;
        EmailAtNone(text, j);
      }
    } else {
      forall i: nat, a: nat, e: nat ensures !IsEmailMatch(text, i, a, e) {
        if i <= |text| {
          assert EmailMatcher()(text, i).None?;
        }
        EmailAtNone(text, i);
      }
    }
  }

  // Phone: the regex `(\+\d{1,3}[-.]?)?\(?\d{3}\)?[-.]?\d{3}[-.]?\d{4}`.
  // Every optional character is taken when present: skipping one leaves a
  // character that the next digit group cannot start with. So only the
  // country code's \d{1,3} backtracks, from three digits down to one.

  predicate IsSep(c: char) {
    c == '-' || c == '.'
  }

  predicate DigitsAt(s: string, j: nat, n: nat) {
    j + n <= |s| && forall k :: j <= k < j + n ==> IsDigit(s[k])
  }

  /** An optional character, taken greedily: the index after it. */
  function Opt(s: string, j: nat, p: char -> bool): nat {
    if j < |s| && p(s[j]) then j + 1 else j
  }

  function IsOpen(): char -> bool { c => c == '(' }
  function IsClose(): char -> bool { c => c == ')' }
  function Sep(): char -> bool { c => IsSep(c) }

  /** `\(?\d{3}\)?[-.]?\d{3}[-.]?\d{4}` at `j`: the end of the match. */
  function CoreAt(s: string, j: nat): Option<nat> {
    var a := Opt(s, j, IsOpen());
    if !DigitsAt(s, a, 3) then None
    else
      var c := Opt(s, Opt(s, a + 3, IsClose()), Sep());
      if !DigitsAt(s, c, 3) then None
      else
        var d := Opt(s, c + 3, Sep());
        if !DigitsAt(s, d, 4) then None else Some(d + 4)
  }

  /** Which optional characters a number written in the core shape has. */
  datatype Layout = Layout(open: bool, close: bool, sep1: bool, sep2: bool)

  function Bit(b: bool): nat {
    if b then 1 else 0
  }

  /** The core shape, laid out as `l` says, occupies s[j..e]. */
  predicate CoreIn(s: string, j: nat, l: Layout, e: nat) {
    var a := j + Bit(l.open);
    var b := a + 3 + Bit(l.close);
    var c := b + Bit(l.sep1);
    var d := c + 3 + Bit(l.sep2);
    && e == d + 4 && e <= |s|
    && (l.open ==> s[j] == '(')
    && DigitsAt(s, a, 3)
    && (l.close ==> s[a + 3] == ')')
    && (l.sep1 ==> IsSep(s[b]))
    && DigitsAt(s, c, 3)
    && (l.sep2 ==> IsSep(s[c + 3]))
    && DigitsAt(s, d, 4)
  }

  /** What CoreAt finds is the core shape under some layout. */
  lemma CoreAtSound(s: string, j: nat)
    requires CoreAt(s, j).Some?
    ensures exists l :: CoreIn(s, j, l, CoreAt(s, j).value)
  {
    var a := Opt(s, j, IsOpen());
    var b := Opt(s, a + 3, IsClose());
    var c := Opt(s, b, Sep());
    var d := Opt(s, c + 3, Sep());
    var l := Layout(a == j + 1, b == a + 4, c == b + 1, d == c + 4);
    assert a == j + Bit(l.open) && (l.open ==> s[j] == '(');
    assert b == a + 3 + Bit(l.close) && (l.close ==> s[a + 3] == ')');
    assert c == b + Bit(l.sep1) && (l.sep1 ==> IsSep(s[b]));
    assert d == c + 3 + Bit(l.sep2) && (l.sep2 ==> IsSep(s[c + 3]));
    assert CoreAt(s, j) == Some(d + 4);
    assert CoreIn(s, j, l, d + 4);
  }

  /** Any layout of the core shape at `j` is what CoreAt finds: the greedy
      choice of each optional character is the only one that can succeed. */
  lemma CoreAtComplete(s: string, j: nat, l: Layout, e: nat)
    requires CoreIn(s, j, l, e)
    ensures CoreAt(s, j) == Some(e)
  {
    var a := j + Bit(l.open);
    var b := a + 3 + Bit(l.close);
    var c := b + Bit(l.sep1);
    var d := c + 3 + Bit(l.sep2);
    assert Opt(s, j, IsOpen()) == a by {
      if !l.open { assert IsDigit(s[a]); }
    }
    assert Opt(s, a + 3, IsClose()) == b by {
      if !l.close && !l.sep1 { assert IsDigit(s[c]); }
      if !l.close && l.sep1 { assert IsSep(s[b]); }
    }
    assert Opt(s, b, Sep()) == c by {
      if !l.sep1 { assert IsDigit(s[c]); }
    }
    assert Opt(s, c + 3, Sep()) == d by {
      if !l.sep2 { assert IsDigit(s[d]); }
    }
  }

  /** `+`, then `n` country digits, an optional separator, then the core:
      the end of the match. */
  function WithCode(s: string, i: nat, n: nat): Option<nat> {
    if !DigitsAt(s, i + 1, n) then None
    else CoreAt(s, Opt(s, i + 1 + n, Sep()))
  }

  /** The country code tried with `n` digits, then fewer, down to one. */
  function CountryAt(s: string, i: nat, n: nat): (r: Option<nat>)
    decreases n
  {
    if n == 0 then None
    else
      match WithCode(s, i, n)
      case Some(e) => Some(e)
      case None => CountryAt(s, i, n - 1)
  }

  /** The end of the phone match at `i`: with a country code when the text
      has '+' there (the core cannot start with '+'), without one otherwise. */
  function PhoneAt(s: string, i: nat): Option<nat> {
    if i < |s| && s[i] == '+' then CountryAt(s, i, 3) else CoreAt(s, i)
  }

  /** The country-code form, with `n` code digits and layout `l`, occupies s[i..e]. */
  predicate CodedIn(s: string, i: nat, n: nat, sep: bool, l: Layout, e: nat) {
    && 1 <= n <= 3
    && i < |s| && s[i] == '+'
    && DigitsAt(s, i + 1, n)
    && (sep ==> i + 1 + n < |s| && IsSep(s[i + 1 + n]))
    && CoreIn(s, i + 1 + n + Bit(sep), l, e)
  }

  /** The phone forms: a number with a country code, or the bare core. The
      optional group and \d{1,3} are greedy, so the code has the most digits
      with which the rest of the pattern matches. */
  ghost predicate IsPhoneMatch(s: string, i: nat, e: nat) {
    (exists n: nat, sep: bool, l: Layout :: CodedIn(s, i, n, sep, l, e) && Longest(s, i, n))
    || (!(i < |s| && s[i] == '+') && exists l: Layout :: CoreIn(s, i, l, e))
  }

  /** No country code longer than `n` digits lets the pattern match at `i`. */
  ghost predicate Longest(s: string, i: nat, n: nat) {
    forall m: nat :: n < m <= 3 ==> !CodeWorks(s, i, m)
  }

  lemma WithCodeSound(s: string, i: nat, n: nat)
    requires 1 <= n <= 3 && i < |s| && s[i] == '+'
    requires WithCode(s, i, n).Some?
    ensures exists sep, l :: CodedIn(s, i, n, sep, l, WithCode(s, i, n).value)
  {
    var j := Opt(s, i + 1 + n, Sep());
    CoreAtSound(s, j);
    var l :| CoreIn(s, j, l, CoreAt(s, j).value);
    assert CodedIn(s, i, n, j == i + 2 + n, l, WithCode(s, i, n).value);
  }

  lemma WithCodeComplete(s: string, i: nat, n: nat, sep: bool, l: Layout, e: nat)
    requires CodedIn(s, i, n, sep, l, e)
    ensures WithCode(s, i, n) == Some(e)
  {
    var j := i + 1 + n;
    assert Opt(s, j, Sep()) == j + Bit(sep) by {
      if !sep {
        var k := j + Bit(l.open);
        if l.open { assert s[j] == '('; } else { assert IsDigit(s[k]); }
      }
    }
    CoreAtComplete(s, j + Bit(sep), l, e);
  }

  /** The country-code form with `m` code digits occurs at `i`. */
  ghost predicate CodeWorks(s: string, i: nat, m: nat) {
    exists sep: bool, l: Layout, e: nat :: CodedIn(s, i, m, sep, l, e)
  }

  lemma WithCodeWorks(s: string, i: nat, n: nat)
    requires 1 <= n <= 3 && i < |s| && s[i] == '+'
    ensures WithCode(s, i, n).Some? <==> CodeWorks(s, i, n)
  {
    if WithCode(s, i, n).Some? {
      WithCodeSound(s, i, n);
    }
    if CodeWorks(s, i, n) {
      var sep, l, e :| CodedIn(s, i, n, sep, l, e);
      WithCodeComplete(s, i, n, sep, l, e);
    }
  }

  /** The country code found has the most digits that let the rest match,
      as the greedy \d{1,3} does. */
  lemma {:induction false} CountryAtIsGreedy(s: string, i: nat, n: nat)
    requires n <= 3 && i < |s| && s[i] == '+'
    ensures CountryAt(s, i, n).Some? ==>
              exists m: nat :: 1 <= m <= n && WithCode(s, i, m) == CountryAt(s, i, n)
                && forall m': nat :: m < m' <= n ==> !CodeWorks(s, i, m')
    ensures CountryAt(s, i, n).None? ==> forall m: nat :: 1 <= m <= n ==> !CodeWorks(s, i, m)
    decreases n
  {
    if n > 0 {
      CountryAtIsGreedy(s, i, n - 1);
      WithCodeWorks(s, i, n);
      if WithCode(s, i, n).Some? {
        assert WithCode(s, i, n) == CountryAt(s, i, n);
      } else if CountryAt(s, i, n - 1).Some? {
        var m: nat :| 1 <= m <= n - 1 && WithCode(s, i, m) == CountryAt(s, i, n - 1)
                      && forall m': nat :: m < m' <= n - 1 ==> !CodeWorks(s, i, m');
        assert forall m': nat :: m < m' <= n ==> !CodeWorks(s, i, m');
      }
    }
  }

  /** PhoneAt finds a match at `i` exactly when one of the phone forms is
      there, what it finds is one of them, and any phone form at `i` is the
      one it finds. */
  lemma PhoneAtMatches(s: string, i: nat)
    ensures PhoneAt(s, i).Some? ==> IsPhoneMatch(s, i, PhoneAt(s, i).value)
    ensures PhoneAt(s, i).None? ==> forall e: nat :: !IsPhoneMatch(s, i, e)
    ensures forall e: nat :: IsPhoneMatch(s, i, e) ==> PhoneAt(s, i) == Some(e)
  {
    if i < |s| && s[i] == '+' {
      if PhoneAt(s, i).Some? {
        CodedSound(s, i);
      }
      forall e: nat | IsPhoneMatch(s, i, e) ensures PhoneAt(s, i) == Some(e) {
        var n: nat, sep: bool, l: Layout :| CodedIn(s, i, n, sep, l, e) && Longest(s, i, n);
        CodedComplete(s, i, n, sep, l, e);
      }
    } else {
      if CoreAt(s, i).Some? {
        CoreAtSound(s, i);
      }
      forall e: nat | IsPhoneMatch(s, i, e) ensures PhoneAt(s, i) == Some(e) {
        var l :| CoreIn(s, i, l, e);
        CoreAtComplete(s, i, l, e);
      }
    }
  }

  /** After a '+', what PhoneAt finds is the coded form with the longest code. */
  lemma CodedSound(s: string, i: nat)
    requires i < |s| && s[i] == '+' && PhoneAt(s, i).Some?
    ensures IsPhoneMatch(s, i, PhoneAt(s, i).value)
  {
    CountryAtIsGreedy(s, i, 3);
    var m: nat :| 1 <= m <= 3 && WithCode(s, i, m) == CountryAt(s, i, 3) && Longest(s, i, m);
    WithCodeSound(s, i, m);
  }

  /** After a '+', a coded form with the longest code is the one PhoneAt finds. */
  lemma CodedComplete(s: string, i: nat, n: nat, sep: bool, l: Layout, e: nat)
    requires CodedIn(s, i, n, sep, l, e) && Longest(s, i, n)
    ensures PhoneAt(s, i) == Some(e)
  {
    WithCodeComplete(s, i, n, sep, l, e);
    forall m: nat | n < m <= 3 ensures WithCode(s, i, m).None? {
      WithCodeWorks(s, i, m);
    }
    CountryAtLongest(s, i, 3, n);
  }

  /** CountryAt tried from `k` digits down stops at the longest code that works. */
  lemma {:induction false} CountryAtLongest(s: string, i: nat, k: nat, n: nat)
    requires 1 <= n <= k && WithCode(s, i, n).Some?
    requires forall m: nat :: n < m <= k ==> WithCode(s, i, m).None?
    ensures CountryAt(s, i, k) == WithCode(s, i, n)
    decreases k
  {
    if k > n {
      CountryAtLongest(s, i, k - 1, n);
    }
  }

  function PhoneMatcher(): (string, nat) -> Option<nat> {
    (s: string, i: nat) => PhoneAt(s, i)
  }

  /** The whole of the leftmost phone match in the text, if any. */
  function Phone(text: string): (r: Option<string>)
    ensures r.Some? ==> 10 <= |r.value|
  {
    match Search(text, PhoneMatcher(), 0)
    case Some((i, e)) =>
      PhoneLength(text, i);
      Some(text[i..e])
    case None => None
  }

  /** A phone match covers at least its ten digits. */
  lemma PhoneLength(s: string, i: nat)
    ensures PhoneAt(s, i).Some? ==> i + 10 <= PhoneAt(s, i).value <= |s|
  {
    PhoneAtMatches(s, i);
  }

  /** The phone found is the leftmost place where a phone form occurs, and
      there is none iff no phone form occurs anywhere. */
  lemma PhoneIsLeftmost(text: string)
    ensures Phone(text).None? <==> forall i: nat, e: nat :: i <= |text| ==> !IsPhoneMatch(text, i, e)
    ensures Phone(text).Some? ==>
              exists i: nat, e: nat ::
                && i <= e <= |text|
                && IsPhoneMatch(text, i, e)
                && Phone(text).value == text[i..e]
                && (forall e': nat :: IsPhoneMatch(text, i, e') ==> e' == e)
                && forall j: nat, e': nat :: j < i ==> !IsPhoneMatch(text, j, e')
  {
    var r := Search(text, PhoneMatcher(), 0);
    if r.Some? {
      var i, e := r.value.0, r.value.1;
      assert PhoneAt(text, i) == Some(e);
      PhoneAtMatches(text, i);
      PhoneLength(text, i);
      forall j: nat, e': nat | j < i ensures !IsPhoneMatch(text, j, e') {
        assert PhoneMatcher()(text, j).None?;
        PhoneAtMatches(text, j);
      }
    } else {
      forall i: nat, e: nat | i <= |text| ensures !IsPhoneMatch(text, i, e) {
        assert PhoneMatcher()(text, i).None?;
        PhoneAtMatches(text, i);
      }
    }
  }

  /** With thirteen digits after '+', the code takes three of them: the only
      phone match at the start is the whole text, not the one-digit-code
      match of twelve characters. */
  lemma LongestCodeExample()
    ensures forall e: nat :: IsPhoneMatch("+1234567890123", 0, e) <==> e == 14
  {
    LongestCodeFound();
    PhoneAtMatches("+1234567890123", 0);
  }

  lemma LongestCodeFound()
    ensures PhoneAt("+1234567890123", 0) == Some(14)
  {
    var s := "+1234567890123";
    assert s[1..4] == "123" && s[4..7] == "456" && s[7..10] == "789" && s[10..] == "0123";
    assert DigitsAt(s, 1, 3) && DigitsAt(s, 4, 3) && DigitsAt(s, 7, 3) && DigitsAt(s, 10, 4);
    assert Opt(s, 4, IsOpen()) == 4 && Opt(s, 7, IsClose()) == 7;
    assert Opt(s, 7, Sep()) == 7 && Opt(s, 10, Sep()) == 10;
    assert CoreAt(s, 4) == Some(14);
  }

  // Headline: the second non-blank line, cut to 100 characters.

  function Truncate(s: string, n: nat): (r: string)
    ensures r <= s && |r| == if |s| < n then |s| else n
  {
    if |s| <= n then s else s[..n]
  }

  /** The first 100 characters of the second stripped non-blank line, when
      there are two. */
  function Headline(text: string): (r: Option<string>)
    ensures r.Some? <==> |CleanLines(Split(text, '\n'))| > 1
    ensures r.Some? ==> r.value != [] && |r.value| <= 100
  {
    var lines := CleanLines(Split(text, '\n'));
    if |lines| > 1 then Some(Truncate(lines[1], 100)) else None
  }

  /** The headline is the second non-blank line, stripped, when it is short;
      otherwise its first 100 characters. */
  lemma HeadlineIsSecondLine(text: string)
    requires |CleanLines(Split(text, '\n'))| > 1
    ensures var second := CleanLines(Split(text, '\n'))[1];
            && Headline(text).value <= second
            && (|second| <= 100 ==> Headline(text).value == second)
            && (|second| > 100 ==> |Headline(text).value| == 100)
  {
  }
}
