/** extract_links: profile links found anywhere in the text. */
module Links {
  import opened Wrappers
  import opened Text

  /** The regex class [\w-]. */
  predicate IsLinkChar(c: char) {
    IsWordChar(c) || c == '-'
  }

  /** `prefix[\w-]+` matches at `i` and ends at `e`: the prefix compared
      ignoring case, then the longest run of link characters, at least one. */
  predicate IsLinkMatch(prefix: string, s: string, i: nat, e: nat) {
    && OccursAtIgnoreCase(s, i, prefix)
    && i + |prefix| < e <= |s|
    && (forall k :: i + |prefix| <= k < e ==> IsLinkChar(s[k]))
    && (e == |s| || !IsLinkChar(s[e]))
  }

  /** The end of the match of `prefix[\w-]+` at `i`, if there is one. */
  function LinkAt(prefix: string, s: string, i: nat): (r: Option<nat>)
    ensures r.Some? ==> IsLinkMatch(prefix, s, i, r.value)
    ensures r.None? ==> forall e: nat :: !IsLinkMatch(prefix, s, i, e)
    ensures forall e: nat :: IsLinkMatch(prefix, s, i, e) ==> r == Some(e)
  {
    var j := i + |prefix|;
    if OccursAtIgnoreCase(s, i, prefix) && j < |s| && IsLinkChar(s[j]) then
      Some(RunEnd(s, j, IsLinkChar))
    else
      None
  }

  /** An alternation of such patterns: the first alternative that matches at `i`. */
  function AltAt(alts: seq<string>, s: string, i: nat): (r: Option<nat>)
    ensures r.Some? ==> exists a :: 0 <= a < |alts| && IsLinkMatch(alts[a], s, i, r.value)
    ensures r.None? <==> forall a :: 0 <= a < |alts| ==> LinkAt(alts[a], s, i).None?
  {
    if |alts| == 0 then None
    else
      match LinkAt(alts[0], s, i)
      case Some(e) => Some(e)
      case None =>
        var r := AltAt(alts[1..], s, i);
        assert forall a :: 1 <= a < |alts| ==> alts[a] == alts[1..][a - 1];
        r
  }

  /** The alternation as a matcher for Search. */
  function Matcher(alts: seq<string>): (string, nat) -> Option<nat> {
    (s: string, i: nat) => AltAt(alts, s, i)
  }

  /** The leftmost match of the alternation, prefixed with "https://". */
  function Find(alts: seq<string>, text: string): (r: Option<string>)
  {
    match Search(text, Matcher(alts), 0)
    case Some((i, e)) => Some("https://" + text[i..e])
    case None => None
  }

  const GitHub: seq<string> := ["github.com/"]
  const LinkedIn: seq<string> := ["linkedin.com/in/"]
  const Behance: seq<string> := ["behance.net/"]
  const Twitter: seq<string> := ["twitter.com/", "x.com/"]

  /** `links[key] = "https://" + match` when the pattern matches. */
  function Record(links: map<string, string>, key: string, found: Option<string>): map<string, string> {
    if found.Some? then links[key := found.value] else links
  }

  /** `m` reports the alternation under `key` as re.search finds it: present
      iff it matches somewhere, and then the leftmost match behind "https://". */
  predicate Reports(m: map<string, string>, key: string, alts: seq<string>, text: string) {
    && (key in m <==> exists i: nat :: i <= |text| && AltAt(alts, text, i).Some?)
    && (key in m ==> exists i: nat, e: nat ::
          && i <= e <= |text|
          && AltAt(alts, text, i) == Some(e)
          && m[key] == "https://" + text[i..e]
          && forall j: nat :: j < i ==> AltAt(alts, text, j).None?)
  }

  /** extract_links(text). */
  function ExtractLinks(text: string): (m: map<string, string>)
    ensures forall k :: k in m ==> k in {"github_url", "linkedin_url", "behance_url", "twitter_url"}
  {
    var m := Record(map[], "github_url", Find(GitHub, text));
    var m := Record(m, "linkedin_url", Find(LinkedIn, text));
    var m := Record(m, "behance_url", Find(Behance, text));
    Record(m, "twitter_url", Find(Twitter, text))
  }

  lemma FindReports(m: map<string, string>, key: string, alts: seq<string>, text: string)
    requires key in m <==> Find(alts, text).Some?
    requires key in m ==> m[key] == Find(alts, text).value
    ensures Reports(m, key, alts, text)
  {
    var at := Matcher(alts);
    var r := Search(text, at, 0);
    if r.Some? {
      var i, e := r.value.0, r.value.1;
      assert AltAt(alts, text, i) == Some(e);
      var a :| 0 <= a < |alts| && IsLinkMatch(alts[a], text, i, e);
      assert i <= e <= |text|;
      assert forall j: nat :: j < i ==> AltAt(alts, text, j).None? by {
        forall j: nat | j < i ensures AltAt(alts, text, j).None? {
          assert at(text, j).None?;
        }
      }
    } else {
      forall i: nat | i <= |text| ensures AltAt(alts, text, i).None? {
        assert at(text, i).None?;
      }
    }
  }

  /** Each of the four links is reported exactly as re.search finds it; the
      later writes touch other keys only. */
  lemma LinksReported(text: string)
    ensures Reports(ExtractLinks(text), "github_url", GitHub, text)
    ensures Reports(ExtractLinks(text), "linkedin_url", LinkedIn, text)
    ensures Reports(ExtractLinks(text), "behance_url", Behance, text)
    ensures Reports(ExtractLinks(text), "twitter_url", Twitter, text)
  {
    GitHubReported(text);
    LinkedInReported(text);
    BehanceReported(text);
    TwitterReported(text);
  }

  lemma GitHubReported(text: string)
    ensures Reports(ExtractLinks(text), "github_url", GitHub, text)
  {
    var m1 := Record(map[], "github_url", Find(GitHub, text));
    var m2 := Record(m1, "linkedin_url", Find(LinkedIn, text));
    var m3 := Record(m2, "behance_url", Find(Behance, text));
    RecordOther(m1, "linkedin_url", Find(LinkedIn, text), "github_url");
    RecordOther(m2, "behance_url", Find(Behance, text), "github_url");
    RecordOther(m3, "twitter_url", Find(Twitter, text), "github_url");
    FindReports(ExtractLinks(text), "github_url", GitHub, text);
  }

  lemma LinkedInReported(text: string)
    ensures Reports(ExtractLinks(text), "linkedin_url", LinkedIn, text)
  {
    var m1 := Record(map[], "github_url", Find(GitHub, text));
    var m2 := Record(m1, "linkedin_url", Find(LinkedIn, text));
    var m3 := Record(m2, "behance_url", Find(Behance, text));
    RecordOther(m2, "behance_url", Find(Behance, text), "linkedin_url");
    RecordOther(m3, "twitter_url", Find(Twitter, text), "linkedin_url");
    FindReports(ExtractLinks(text), "linkedin_url", LinkedIn, text);
  }

  lemma BehanceReported(text: string)
    ensures Reports(ExtractLinks(text), "behance_url", Behance, text)
  {
    var m1 := Record(map[], "github_url", Find(GitHub, text));
    var m2 := Record(m1, "linkedin_url", Find(LinkedIn, text));
    var m3 := Record(m2, "behance_url", Find(Behance, text));
    RecordOther(m3, "twitter_url", Find(Twitter, text), "behance_url");
    FindReports(ExtractLinks(text), "behance_url", Behance, text);
  }

  lemma TwitterReported(text: string)
    ensures Reports(ExtractLinks(text), "twitter_url", Twitter, text)
  {
    FindReports(ExtractLinks(text), "twitter_url", Twitter, text);
  }

  /** Recording under one key leaves every other key as it was. */
  lemma RecordOther(m: map<string, string>, key: string, found: Option<string>, k: string)
    requires k != key
    ensures k in Record(m, key, found) <==> k in m
    ensures k in m ==> Record(m, key, found)[k] == m[k]
  {
  }

  /** The x.com alternative matches inside any host ending in "x.com": an
      address on netflix.com is reported as a Twitter/X link. */
  lemma NetflixIsTwitter()
    ensures var m := ExtractLinks("netflix.com/abc");
            "twitter_url" in m && m["twitter_url"] == "https://x.com/abc"
  {
    NetflixFind("netflix.com/abc");
  }

  lemma NetflixFind(text: string)
    requires text == "netflix.com/abc"
    ensures Find(Twitter, text) == Some("https://x.com/abc")
  {
    NetflixMatch(text);
    NetflixNoneBefore(text);
    FindFirst(Twitter, text, 6, 15);
    NetflixSlice(text);
  }

  lemma NetflixSlice(text: string)
    requires text == "netflix.com/abc"
    ensures "https://" + text[6..15] == "https://x.com/abc"
  {
    assert text[6..15] == "x.com/abc";
  }

  /** The first index where the alternation matches gives the link. */
  lemma FindFirst(alts: seq<string>, text: string, i: nat, e: nat)
    requires i <= |text| && Matcher(alts)(text, i) == Some(e)
    requires forall j: nat :: j < i ==> Matcher(alts)(text, j).None?
    ensures Find(alts, text) == Some("https://" + text[i..e])
  {
    SearchFinds(text, Matcher(alts), 0, i, e);
  }

  lemma NetflixMatch(text: string)
    requires text == "netflix.com/abc"
    ensures AltAt(Twitter, text, 6) == Some(15)
  {
    var w := text[6..12];
    assert w == "x.com/";
    assert forall k :: 0 <= k < |w| ==> LowerChar(w[k]) == w[k];
    assert Lower(w) == w;
    assert !OccursAtIgnoreCase(text, 6, "twitter.com/");
    assert RunEnd(text, 12, IsLinkChar) == 15;
  }

  lemma NetflixNoneBefore(text: string)
    requires text == "netflix.com/abc"
    ensures forall j: nat :: j < 6 ==> Matcher(Twitter)(text, j).None?
  {
    forall j: nat | j < 6 ensures Matcher(Twitter)(text, j).None? {
      NetflixNotEarlier(text, j);
    }
  }

  lemma NetflixNotEarlier(text: string, j: nat)
    requires text == "netflix.com/abc" && j < 6
    ensures AltAt(Twitter, text, j).None?
  {
    var c, d := LowerChar(text[j]), LowerChar(text[j + 1]);
    assert c != 'x' && (c != 't' || d != 'w') by {
      assert text[..7] == "netflix";
    }
    NoLinkAt(text, j, "twitter.com/");
    NoLinkAt(text, j, "x.com/");
  }

  /** A pattern whose first two letters are not those of the text at `i` does not match there. */
  lemma NoLinkAt(s: string, i: nat, pat: string)
    requires |pat| >= 2 && i + 1 < |s|
    requires LowerChar(s[i]) != pat[0] || LowerChar(s[i + 1]) != pat[1]
    ensures LinkAt(pat, s, i).None?
  {
    LeadingPair(s, i, pat);
  }

  /** A literal matching ignoring case starts with its first two letters. */
  lemma LeadingPair(s: string, i: nat, pat: string)
    requires |pat| >= 2
    ensures OccursAtIgnoreCase(s, i, pat) ==> LowerChar(s[i]) == pat[0] && LowerChar(s[i + 1]) == pat[1]
  {
    if OccursAtIgnoreCase(s, i, pat) {
      var w := Lower(s[i..i + |pat|]);
      assert w[0] == LowerChar(s[i]) && w[1] == LowerChar(s[i + 1]);
    }
  }

  /** Search stops at the first index where the matcher succeeds. */
  lemma {:induction false} SearchFinds(s: string, at: (string, nat) -> Option<nat>, from: nat, i: nat, e: nat)
    requires from <= i <= |s| && at(s, i) == Some(e)
    requires forall j: nat :: from <= j < i ==> at(s, j).None?
    ensures Search(s, at, from) == Some((i, e))
    decreases i - from
  {
    if from < i {
      SearchFinds(s, at, from + 1, i, e);
    }
  }
}
