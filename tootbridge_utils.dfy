/**
 * Text preparation of the current bridge (src/tootbridge/utils.py): find the
 * shortlinks in a tweet, replace each by what it redirects to, and append a
 * footer that points back to the source tweet.
 *
 * The network probe of a shortlink is an input: `probe(link)` is what the
 * HEAD request for `link` produced.
 */
module TootbridgeUtils {
  import opened Wrappers
  import opened Strings
  import opened Tweets

  /**
   * The host alternatives of the link pattern
   * `https://(?:t.co|ift.tt)/[a-zA-Z0-9]+`. A `.` in a host is the regular
   * expression's wildcard, not a literal dot.
   */
  const SHORTENERS: seq<string> := ["t.co", "ift.tt"]

  const LINK_SCHEME: string := "https://"

  /** What separates the prepared text from the link to the source tweet. */
  const FOOTER_LABEL: string := "\n\nИсточник: "

  // ---------------------------------------------------------------------------
  // Resolving one shortlink

  /** The outcome of probing one shortlink: the request raised, or a response came back. */
  datatype LinkProbe =
    | ProbeRaised
    | ProbeResponse(statusCode: int, location: Option<string>)

  /** httpx's `Response.is_error`: a 4xx or 5xx status. */
  predicate IsErrorStatus(statusCode: int) {
    400 <= statusCode <= 599
  }

  /** The probe succeeded: no error status and a non-empty `Location` header. */
  predicate Resolves(probe: LinkProbe) {
    probe.ProbeResponse? && !IsErrorStatus(probe.statusCode)
    && probe.location.Some? && probe.location.value != []
  }

  /**
   * `_unshorten_link`: the redirect target on success; the link itself when
   * the request raised, the status is an error, or `Location` is missing or
   * empty. It never fails.
   */
  function UnshortenLink(link: string, probe: LinkProbe): (r: string)
    ensures Resolves(probe) ==> r == probe.location.value && r != []
    ensures !Resolves(probe) ==> r == link
  {
    match probe
    case ProbeRaised => link
    case ProbeResponse(statusCode, location) =>
      if IsErrorStatus(statusCode) then link
      else
        var target := match location case Some(l) => l case None => "";
        if target == [] then link else target
  }

  // ---------------------------------------------------------------------------
  // Finding shortlinks: `re.findall` with the link pattern

  predicate IsAlnum(c: char) {
    ('a' <= c <= 'z') || ('A' <= c <= 'Z') || ('0' <= c <= '9')
  }

  /** One pattern character against one text character; `.` matches anything but a newline. */
  predicate PatternCharMatches(p: char, c: char) {
    if p == '.' then c != '\n' else c == p
  }

  /** The host pattern `host` matches `s` at index `j`. */
  predicate HostAt(s: string, j: nat, host: string) {
    j + |host| <= |s| && forall k :: 0 <= k < |host| ==> PatternCharMatches(host[k], s[j + k])
  }

  /** The length of the run of `[a-zA-Z0-9]` that starts at `j`; the `+` is greedy. */
  function AlnumRun(s: string, j: nat): (n: nat)
    requires j <= |s|
    ensures j + n <= |s|
    ensures forall k :: j <= k < j + n ==> IsAlnum(s[k])
    ensures j + n == |s| || !IsAlnum(s[j + n])
    decreases |s| - j
  {
    if j < |s| && IsAlnum(s[j]) then 1 + AlnumRun(s, j + 1) else 0
  }

  /** The host alternative `host` followed by `/` and one or more letters or digits matches at `j`. */
  predicate AlternativeAt(s: string, j: nat, host: string) {
    HostAt(s, j, host) && j + |host| + 1 < |s| && s[j + |host|] == '/' && IsAlnum(s[j + |host| + 1])
  }

  /**
   * The length matched after the scheme at `j`, by the first alternative
   * that matches (the regular expression tries them in order), or 0.
   */
  function AlternativesLength(s: string, j: nat, hosts: seq<string>): (n: nat)
    requires j <= |s|
    ensures n > 0 <==> exists h :: h in hosts && AlternativeAt(s, j, h)
    ensures j + n <= |s|
    decreases |hosts|
  {
    if hosts == [] then 0
    else if AlternativeAt(s, j, hosts[0]) then |hosts[0]| + 1 + AlnumRun(s, j + |hosts[0]| + 1)
    else AlternativesLength(s, j, hosts[1..])
  }

  /** The length of the link pattern's match starting at `i`, or 0 when it does not match there. */
  function LinkLengthAt(s: string, i: nat, hosts: seq<string>): (n: nat)
    requires i <= |s|
    ensures i + n <= |s|
  {
    if OccursAt(s, LINK_SCHEME, i) then
      var m := AlternativesLength(s, i + |LINK_SCHEME|, hosts);
      if m == 0 then 0 else |LINK_SCHEME| + m
    else 0
  }

  /**
   * The link pattern matches at index `i`: the scheme, then one of the host
   * alternatives, a slash and at least one letter or digit.
   */
  predicate PatternAt(s: string, i: nat, hosts: seq<string>) {
    OccursAt(s, LINK_SCHEME, i) && exists h :: h in hosts && AlternativeAt(s, i + |LINK_SCHEME|, h)
  }

  /** The length of the match at every index of `s`, 0 where the pattern does not match. */
  function MatchLengths(s: string, hosts: seq<string>): (lens: seq<nat>)
    ensures FitsIn(s, lens)
  {
    seq(|s| + 1, m requires 0 <= m <= |s| => LinkLengthAt(s, m, hosts))
  }

  /** `lens` gives, for every index of `s`, a match length that stays inside `s`. */
  predicate FitsIn(s: string, lens: seq<nat>) {
    |lens| == |s| + 1 && forall m :: 0 <= m <= |s| ==> m + lens[m] <= |s|
  }

  /**
   * The scan of `re.findall` from index `i`, given the match length at every
   * index: leftmost matches, each resuming where the last one ended.
   */
  function Scan(s: string, i: nat, lens: seq<nat>): (links: seq<string>)
    requires FitsIn(s, lens) && i <= |s|
    ensures forall k :: 0 <= k < |links| ==> |links[k]| > 0
    decreases |s| - i
  {
    if i == |s| then []
    else if lens[i] > 0 then [s[i..i + lens[i]]] + Scan(s, i + lens[i], lens)
    else Scan(s, i + 1, lens)
  }

  /** `re.findall(link_pattern, s)`. */
  function FindLinks(s: string, hosts: seq<string>): (links: seq<string>)
    ensures forall k :: 0 <= k < |links| ==> |links[k]| > 0
  {
    Scan(s, 0, MatchLengths(s, hosts))
  }

  /** The scanner matches at `i` exactly when the pattern matches there. */
  lemma MatchesWherePatternDoes(s: string, i: nat, hosts: seq<string>)
    requires i <= |s|
    ensures LinkLengthAt(s, i, hosts) > 0 <==> PatternAt(s, i, hosts)
  {
  }

  /** `link` is the non-empty text `lens` marks at index `m` of `s`. */
  predicate ReadAt(s: string, lens: seq<nat>, m: nat, link: string) {
    m < |lens| && m + lens[m] <= |s| && lens[m] > 0 && link == s[m..m + lens[m]]
  }

  /** Every link the scan from `i` reports is the text of a match at some index at or after `i`. */
  lemma {:induction false} ScanReadsMatches(s: string, i: nat, lens: seq<nat>)
    requires FitsIn(s, lens) && i <= |s|
    ensures forall link :: link in Scan(s, i, lens) ==> exists m :: i <= m <= |s| && ReadAt(s, lens, m, link)
    decreases |s| - i
  {
    if i < |s| {
      var next := if lens[i] > 0 then i + lens[i] else i + 1;
      ScanReadsMatches(s, next, lens);
      var rest := Scan(s, next, lens);
      forall link | link in Scan(s, i, lens) ensures exists m :: i <= m <= |s| && ReadAt(s, lens, m, link) {
        if lens[i] > 0 && link == s[i..i + lens[i]] {
          assert ReadAt(s, lens, i, link);
        } else {
          assert link in rest;
          var m :| next <= m <= |s| && ReadAt(s, lens, m, link);
        }
      }
    }
  }

  /** The scan from `i` reports nothing exactly when no index at or after `i` starts a match. */
  lemma {:induction false} ScanEmpty(s: string, i: nat, lens: seq<nat>)
    requires FitsIn(s, lens) && i <= |s|
    ensures Scan(s, i, lens) == [] <==> forall m :: i <= m < |s| ==> lens[m] == 0
    decreases |s| - i
  {
    if i < |s| && lens[i] == 0 {
      ScanEmpty(s, i + 1, lens);
    }
  }

  /** The scan passes over indices that start no match. */
  lemma {:induction false} ScanSkips(s: string, i: nat, j: nat, lens: seq<nat>)
    requires FitsIn(s, lens) && i <= j <= |s| && NoMatchIn(lens, i, j)
    ensures Scan(s, i, lens) == Scan(s, j, lens)
    decreases j - i
  {
    if i < j {
      ScanSkips(s, i + 1, j, lens);
    }
  }

  /** A text where exactly one index starts a match yields exactly that match. */
  lemma {:induction false} ScanSingle(s: string, lens: seq<nat>, p: nat)
    requires FitsIn(s, lens) && p < |s| && lens[p] > 0
    requires forall m :: 0 <= m < |s| && m != p ==> lens[m] == 0
    ensures Scan(s, 0, lens) == [s[p..p + lens[p]]]
  {
    ScanSkips(s, 0, p, lens);
    ScanEmpty(s, p + lens[p], lens);
  }

  /** No index in `[a, b)` starts a match. */
  predicate NoMatchIn(lens: seq<nat>, a: nat, b: nat) {
    forall m :: a <= m < b && m < |lens| ==> lens[m] == 0
  }

  /**
   * `links` are the leftmost non-overlapping matches of `s` from index `i`,
   * found at the positions `ps`: the first starts at the first index from
   * `i` on that starts a match and is the text `lens` marks there, and the
   * others are the leftmost matches from where it ends. With no positions
   * left, no index from `i` on starts a match.
   */
  predicate LeftmostMatches(s: string, lens: seq<nat>, i: nat, ps: seq<nat>, links: seq<string>)
    decreases |ps|
  {
    && |lens| == |s| + 1
    && |links| == |ps|
    && if ps == [] then NoMatchIn(lens, i, |s|)
       else
         var p := ps[0];
         && i <= p < |s| && lens[p] > 0 && p + lens[p] <= |s|
         && NoMatchIn(lens, i, p)
         && links[0] == s[p..p + lens[p]]
         && LeftmostMatches(s, lens, p + lens[p], ps[1..], links[1..])
  }

  /**
   * The scan from `i` reports exactly the leftmost non-overlapping matches,
   * in the order they occur: a match is skipped only when it starts inside
   * one already reported.
   */
  lemma {:induction false} ScanIsLeftmost(s: string, i: nat, lens: seq<nat>)
    requires FitsIn(s, lens) && i <= |s|
    ensures exists ps :: LeftmostMatches(s, lens, i, ps, Scan(s, i, lens))
    decreases |s| - i
  {
    if i == |s| {
      assert Scan(s, i, lens) == [];
      assert LeftmostMatches(s, lens, i, [], Scan(s, i, lens));
    } else if lens[i] > 0 {
      var j := i + lens[i];
      ScanIsLeftmost(s, j, lens);
      var rest :| LeftmostMatches(s, lens, j, rest, Scan(s, j, lens));
      ScanHit(s, i, lens, rest);
    } else {
      ScanIsLeftmost(s, i + 1, lens);
      var ps :| LeftmostMatches(s, lens, i + 1, ps, Scan(s, i + 1, lens));
      LeftmostMiss(s, i, lens, ps, Scan(s, i + 1, lens));
      assert Scan(s, i, lens) == Scan(s, i + 1, lens);
      assert LeftmostMatches(s, lens, i, ps, Scan(s, i, lens));
    }
  }

  lemma ScanHit(s: string, i: nat, lens: seq<nat>, rest: seq<nat>)
    requires FitsIn(s, lens) && i < |s| && lens[i] > 0
    requires LeftmostMatches(s, lens, i + lens[i], rest, Scan(s, i + lens[i], lens))
    ensures LeftmostMatches(s, lens, i, [i] + rest, Scan(s, i, lens))
  {
    var j := i + lens[i];
    LeftmostHit(s, i, lens, rest, Scan(s, j, lens));
    assert Scan(s, i, lens) == [s[i..j]] + Scan(s, j, lens);
  }

  /** A match at `i` goes in front of the leftmost matches from its end on. */
  lemma LeftmostHit(s: string, i: nat, lens: seq<nat>, rest: seq<nat>, tail: seq<string>)
    requires i < |s| && |lens| == |s| + 1 && lens[i] > 0 && i + lens[i] <= |s|
    requires LeftmostMatches(s, lens, i + lens[i], rest, tail)
    ensures LeftmostMatches(s, lens, i, [i] + rest, [s[i..i + lens[i]]] + tail)
  {
    assert ([i] + rest)[1..] == rest;
    assert ([s[i..i + lens[i]]] + tail)[1..] == tail;
  }

  /** An index that starts no match adds nothing to the leftmost matches after it. */
  lemma LeftmostMiss(s: string, i: nat, lens: seq<nat>, ps: seq<nat>, links: seq<string>)
    requires i < |s| && |lens| == |s| + 1 && lens[i] == 0
    requires LeftmostMatches(s, lens, i + 1, ps, links)
    ensures LeftmostMatches(s, lens, i, ps, links)
  {
  }

  /**
   * `re.findall` returns the leftmost non-overlapping matches of the pattern,
   * in the order they occur in `s`: every match is reported unless it starts
   * inside one reported before it.
   */
  lemma FindLinksLeftmost(s: string, hosts: seq<string>)
    ensures exists ps :: LeftmostMatches(s, MatchLengths(s, hosts), 0, ps, FindLinks(s, hosts))
  {
    var lens := MatchLengths(s, hosts);
    ScanIsLeftmost(s, 0, lens);
    var ps :| LeftmostMatches(s, lens, 0, ps, Scan(s, 0, lens));
    assert FindLinks(s, hosts) == Scan(s, 0, lens);
    assert LeftmostMatches(s, lens, 0, ps, FindLinks(s, hosts));
  }

  /** Every index from `i` on that starts a match lies inside one of the leftmost matches. */
  lemma {:induction false} LeftmostCovers(s: string, lens: seq<nat>, i: nat, ps: seq<nat>, links: seq<string>, m: nat)
    requires LeftmostMatches(s, lens, i, ps, links)
    ensures i <= m < |s| && lens[m] > 0 ==>
              exists k :: && 0 <= k < |ps| && ps[k] <= m < ps[k] + lens[ps[k]] <= |s|
                          && links[k] == s[ps[k]..ps[k] + lens[ps[k]]]
    decreases |ps|
  {
    if ps != [] && i <= m < |s| && lens[m] > 0 {
      var p := ps[0];
      if p + lens[p] <= m {
        LeftmostCovers(s, lens, p + lens[p], ps[1..], links[1..], m);
        var k :| && 0 <= k < |ps[1..]| && ps[1..][k] <= m < ps[1..][k] + lens[ps[1..][k]] <= |s|
                 && links[1..][k] == s[ps[1..][k]..ps[1..][k] + lens[ps[1..][k]]];
        assert ps[k + 1] == ps[1..][k] && links[k + 1] == links[1..][k];
      } else {
        assert m >= p;
      }
    }
  }

  /** `link` is the text of the match of the pattern at index `m` of `s`. */
  predicate MatchAt(s: string, m: nat, hosts: seq<string>, link: string) {
    m <= |s| && PatternAt(s, m, hosts) && link == s[m..m + LinkLengthAt(s, m, hosts)]
  }

  /**
   * Every link `re.findall` reports is the text of a match of the pattern in
   * `s`, running to the end of its letters and digits.
   */
  lemma FoundLinksAreMatches(s: string, hosts: seq<string>)
    ensures forall link :: link in FindLinks(s, hosts) ==> exists m: nat :: MatchAt(s, m, hosts, link)
  {
    var lens := MatchLengths(s, hosts);
    ScanReadsMatches(s, 0, lens);
    forall link | link in FindLinks(s, hosts) ensures exists m: nat :: MatchAt(s, m, hosts, link) {
      var m :| 0 <= m <= |s| && ReadAt(s, lens, m, link);
      ReadIsMatch(s, hosts, m, link);
    }
  }

  lemma ReadIsMatch(s: string, hosts: seq<string>, m: nat, link: string)
    requires m <= |s| && ReadAt(s, MatchLengths(s, hosts), m, link)
    ensures MatchAt(s, m, hosts, link)
  {
    MatchesWherePatternDoes(s, m, hosts);
  }

  /**
   * Every index where the pattern matches lies inside a link `re.findall`
   * reports, and that link is the match of the pattern where it starts. So
   * no shortlink of the text goes unreported unless it overlaps one that is
   * reported.
   */
  lemma FindLinksCovers(s: string, hosts: seq<string>, m: nat)
    ensures m <= |s| && PatternAt(s, m, hosts) ==>
              exists p: nat, k :: && 0 <= k < |FindLinks(s, hosts)| && p <= m < p + |FindLinks(s, hosts)[k]|
                                  && MatchAt(s, p, hosts, FindLinks(s, hosts)[k])
  {
    if m <= |s| && PatternAt(s, m, hosts) {
      var lens := MatchLengths(s, hosts);
      var links := Scan(s, 0, lens);
      assert FindLinks(s, hosts) == links;
      PatternMarksMatch(s, hosts, m);
      ScanCoversMarks(s, lens, m);
      var p: nat, k :| 0 <= k < |links| && p <= m < p + |links[k]| && ReadAt(s, lens, p, links[k]);
      ReadIsMatch(s, hosts, p, links[k]);
    }
  }

  lemma PatternMarksMatch(s: string, hosts: seq<string>, m: nat)
    requires m <= |s| && PatternAt(s, m, hosts)
    ensures m < |s| && MatchLengths(s, hosts)[m] > 0
  {
    MatchesWherePatternDoes(s, m, hosts);
  }

  /** Every index the match lengths mark lies inside a link the scan reports, read where that link starts. */
  lemma ScanCoversMarks(s: string, lens: seq<nat>, m: nat)
    requires FitsIn(s, lens) && m < |s| && lens[m] > 0
    ensures exists p: nat, k :: && 0 <= k < |Scan(s, 0, lens)| && p <= m < p + |Scan(s, 0, lens)[k]|
                                && ReadAt(s, lens, p, Scan(s, 0, lens)[k])
  {
    var links := Scan(s, 0, lens);
    ScanIsLeftmost(s, 0, lens);
    var ps :| LeftmostMatches(s, lens, 0, ps, links);
    LeftmostCovers(s, lens, 0, ps, links, m);
    var k :| && 0 <= k < |ps| && ps[k] <= m < ps[k] + lens[ps[k]] <= |s|
             && links[k] == s[ps[k]..ps[k] + lens[ps[k]]];
    assert ReadAt(s, lens, ps[k], links[k]);
  }

  /** `re.findall` finds nothing exactly when the pattern matches nowhere in `s`. */
  lemma FindLinksEmpty(s: string, hosts: seq<string>)
    ensures FindLinks(s, hosts) == [] <==> forall m :: 0 <= m <= |s| ==> !PatternAt(s, m, hosts)
  {
    var lens := MatchLengths(s, hosts);
    ScanEmpty(s, 0, lens);
    forall m | 0 <= m <= |s| ensures lens[m] == 0 <==> !PatternAt(s, m, hosts) {
      MatchesWherePatternDoes(s, m, hosts);
    }
    assert LinkLengthAt(s, |s|, hosts) == 0;
  }

  /** The unescaped `.` of `t.co` matches any character, so `https://tXco/...` is a shortlink. */
  lemma DotIsWildcard()
    ensures PatternAt("https://tXco/abc", 0, SHORTENERS)
  {
    var s := "https://tXco/abc";
    assert s[0..8] == LINK_SCHEME;
    assert "t.co" in SHORTENERS && AlternativeAt(s, 8, "t.co");
  }

  // ---------------------------------------------------------------------------
  // Replacing the links

  /** What `link` is replaced by, given the probes. */
  function Resolution(link: string, probe: string -> LinkProbe): (target: string) {
    UnshortenLink(link, probe(link))
  }

  /**
   * The replacements applied in the order the links were found, each with
   * `str.replace`, so every occurrence of a link gets the same replacement.
   */
  function ExpandLinks(text: string, links: seq<string>, probe: string -> LinkProbe): (expanded: string)
    requires forall k :: 0 <= k < |links| ==> |links[k]| > 0
    decreases |links|
  {
    if links == [] then text
    else ExpandLinks(ReplaceAll(text, links[0], Resolution(links[0], probe)), links[1..], probe)
  }

  /** When every link resolves to itself (every probe failed), expansion changes nothing. */
  lemma {:induction false} ExpandUnresolved(text: string, links: seq<string>, probe: string -> LinkProbe)
    requires forall k :: 0 <= k < |links| ==> |links[k]| > 0
    requires forall k :: 0 <= k < |links| ==> Resolution(links[k], probe) == links[k]
    ensures ExpandLinks(text, links, probe) == text
    decreases |links|
  {
    if links != [] {
      ReplaceBySelf(text, links[0]);
      ExpandUnresolved(text, links[1..], probe);
    }
  }

  /**
   * `_unshorten_links`: the links are found once, in the original text, then
   * the text is rebound through one `replace` per link.
   */
  method UnshortenLinks(text: string, hosts: seq<string>, probe: string -> LinkProbe) returns (r: string)
    ensures r == ExpandLinks(text, FindLinks(text, hosts), probe)
  {
    r := text;
    var links := FindLinks(text, hosts);
    if links != [] {
      var replacements := seq(|links|, k requires 0 <= k < |links| => Resolution(links[k], probe));
      var k := 0;
      while k < |links|
        invariant 0 <= k <= |links|
        invariant ExpandLinks(r, links[k..], probe) == ExpandLinks(text, links, probe)
      {
        assert links[k..][1..] == links[k + 1..];
        r := ReplaceAll(r, links[k], replacements[k]);
        k := k + 1;
      }
    }
  }

  // ---------------------------------------------------------------------------
  // The status text

  /** The footer that links the post back to its source tweet. */
  function Footer(sourceUrl: string): (footer: string) {
    FOOTER_LABEL + sourceUrl
  }

  /** `prepare_text`: the link-expanded text, then the footer. */
  function PrepareText(tweet: Tweet, probe: string -> LinkProbe): (statusText: string) {
    ExpandLinks(tweet.text, FindLinks(tweet.text, SHORTENERS), probe) + Footer(tweet.sourceUrl)
  }

  /** `prepare_text` as the relay runs it: the links expanded, then the footer appended. */
  method PrepareStatusText(tweet: Tweet, probe: string -> LinkProbe) returns (statusText: string)
    ensures statusText == PrepareText(tweet, probe)
  {
    statusText := UnshortenLinks(tweet.text, SHORTENERS, probe);
    statusText := statusText + Footer(tweet.sourceUrl);
  }

  /** The greedy run of letters and digits at `j` is exactly `n` long when `n` of them are followed by something else. */
  lemma {:induction false} AlnumRunIs(s: string, j: nat, n: nat)
    requires j + n <= |s| && (forall k :: j <= k < j + n ==> IsAlnum(s[k]))
    requires j + n == |s| || !IsAlnum(s[j + n])
    ensures AlnumRun(s, j) == n
  {
  }

  /** Only index 4 of "see https://t.co/abc123 for details" can start a link: no other holds an `h`. */
  lemma {:induction false} ExampleMatchesOnlyAtFour(m: nat)
    requires m <= 35 && m != 4
    ensures LinkLengthAt("see " + "https://t.co/abc123" + " for details", m, SHORTENERS) == 0
  {
    var s := "see " + "https://t.co/abc123" + " for details";
    if m < |s| {
      assert s[m] != 'h';
      MissesWithoutHead(s, LINK_SCHEME, m);
    }
  }

  /** After the scheme, "see https://t.co/abc123 for details" holds the first host, a slash and six letters or digits. */
  lemma {:induction false} ExampleHostAtTwelve()
    ensures AlternativeAt("see " + "https://t.co/abc123" + " for details", 12, "t.co")
    ensures AlnumRun("see " + "https://t.co/abc123" + " for details", 17) == 6
  {
    var s := "see " + "https://t.co/abc123" + " for details";
    assert forall k :: 17 <= k < 23 ==> IsAlnum(s[k]);
    assert !IsAlnum(s[23]);
    AlnumRunIs(s, 17, 6);
    assert HostAt(s, 12, "t.co") && s[16] == '/';
  }

  /** At index 4 of "see https://t.co/abc123 for details" the pattern matches the 19 characters of the link. */
  lemma {:induction false} ExampleMatchAtFour()
    ensures LinkLengthAt("see " + "https://t.co/abc123" + " for details", 4, SHORTENERS) == 19
  {
    var link := "https://t.co/abc123";
    var s := "see " + link + " for details";
    MiddleOf("see ", link, " for details");
    assert link[..8] == LINK_SCHEME;
    assert s[4..12] == link[..8];
    ExampleHostAtTwelve();
  }

  /** In "see https://t.co/abc123 for details" the pattern finds the one shortlink. */
  lemma {:induction false} ExampleLinkFound()
    ensures FindLinks("see " + "https://t.co/abc123" + " for details", SHORTENERS) == ["https://t.co/abc123"]
  {
    var link := "https://t.co/abc123";
    var s := "see " + link + " for details";
    MiddleOf("see ", link, " for details");
    var lens := MatchLengths(s, SHORTENERS);
    forall m | 0 <= m < |s| && m != 4 ensures lens[m] == 0 {
      ExampleMatchesOnlyAtFour(m);
    }
    ExampleMatchAtFour();
    ScanSingle(s, lens, 4);
  }

  /** The first occurrence of the link in "see https://t.co/abc123 for details" is at index 4. */
  lemma {:induction false} ExampleFirstAtFour()
    ensures Find("see " + "https://t.co/abc123" + " for details", "https://t.co/abc123") == 4
  {
    var link := "https://t.co/abc123";
    var s := "see " + link + " for details";
    forall j: nat | j < 4 ensures !OccursAt(s, link, j) {
      assert s[j] != 'h';
      MissesWithoutHead(s, link, j);
    }
    MiddleOf("see ", link, " for details");
    assert OccursAt(s, link, 4);
  }

  /**
   * A worked example of `prepare_text`: the shortlink in the text answers 301
   * with a `Location`, so the status names the target in its place.
   */
  lemma {:induction false} PreparedTextExample(probe: string -> LinkProbe, sourceUrl: string, tweetId: int)
    requires probe("https://t.co/abc123") == ProbeResponse(301, Some("https://example.com/full"))
    ensures PrepareText(Tweet("see " + "https://t.co/abc123" + " for details", sourceUrl, tweetId), probe)
            == "see " + "https://example.com/full" + " for details" + Footer(sourceUrl)
  {
    var link, target, tail := "https://t.co/abc123", "https://example.com/full", " for details";
    var s := "see " + link + tail;
    ExampleLinkFound();
    assert Resolution(link, probe) == target;
    assert ExpandLinks(s, [link], probe) == ReplaceAll(s, link, target);
    ExampleFirstAtFour();
    ReplaceAtFirst(s, link, target);
    MiddleOf("see ", link, tail);
    ReplaceAbsent(tail, link, target);
  }

  /** The prepared text ends with the footer naming the tweet's source. */
  lemma PreparedTextEndsWithFooter(tweet: Tweet, probe: string -> LinkProbe)
    ensures |PrepareText(tweet, probe)| >= |Footer(tweet.sourceUrl)|
    ensures PrepareText(tweet, probe)[|PrepareText(tweet, probe)| - |Footer(tweet.sourceUrl)|..]
            == FOOTER_LABEL + tweet.sourceUrl
  {
  }

  /** A tweet where the link pattern matches nowhere keeps its text; only the footer is added. */
  lemma PreparedTextWithoutLinks(tweet: Tweet, probe: string -> LinkProbe)
    requires forall m :: 0 <= m <= |tweet.text| ==> !PatternAt(tweet.text, m, SHORTENERS)
    ensures PrepareText(tweet, probe) == tweet.text + FOOTER_LABEL + tweet.sourceUrl
  {
    FindLinksEmpty(tweet.text, SHORTENERS);
  }

  /** When every probe fails, the shortlinks stay in the text as they were. */
  lemma PreparedTextKeepsUnresolvedLinks(tweet: Tweet, probe: string -> LinkProbe)
    requires forall l :: !Resolves(probe(l))
    ensures PrepareText(tweet, probe) == tweet.text + FOOTER_LABEL + tweet.sourceUrl
  {
    ExpandUnresolved(tweet.text, FindLinks(tweet.text, SHORTENERS), probe);
  }

  // ---------------------------------------------------------------------------
  // Replacing at the matches themselves

  /**
   * The expansion as the design intends it: every match the scan reports is
   * rewritten where it stands, to its own resolution, and nothing else in
   * the text is touched. `str.replace` instead rewrites every occurrence of
   * the link text, including one inside a longer link.
   */
  function RewriteFrom(s: string, i: nat, lens: seq<nat>, probe: string -> LinkProbe): (r: string)
    requires FitsIn(s, lens) && i <= |s|
    decreases |s| - i
  {
    if i == |s| then []
    else if lens[i] > 0 then Resolution(s[i..i + lens[i]], probe) + RewriteFrom(s, i + lens[i], lens, probe)
    else [s[i]] + RewriteFrom(s, i + 1, lens, probe)
  }

  /** The intended link expansion of `text`. */
  function ExpandMatches(text: string, hosts: seq<string>, probe: string -> LinkProbe): (expanded: string) {
    RewriteFrom(text, 0, MatchLengths(text, hosts), probe)
  }

  /** Every match the scan from `i` reports leaves its resolution in the rewritten text. */
  lemma {:induction false} RewriteKeepsResolutions(s: string, i: nat, lens: seq<nat>, probe: string -> LinkProbe, k: nat)
    requires FitsIn(s, lens) && i <= |s| && k < |Scan(s, i, lens)|
    ensures Contains(RewriteFrom(s, i, lens, probe), Resolution(Scan(s, i, lens)[k], probe))
    decreases |s| - i
  {
    if lens[i] > 0 {
      var next := i + lens[i];
      RewriteAtMatch(s, i, lens, probe, k);
      if k > 0 {
        RewriteKeepsResolutions(s, next, lens, probe, k - 1);
        RewriteAfterMatch(s, i, lens, probe, k);
      }
    } else {
      RewriteKeepsResolutions(s, i + 1, lens, probe, k);
      RewriteAfterSkip(s, i, lens, probe, k);
    }
  }

  /** The step of `RewriteKeepsResolutions` at a match, for the match itself. */
  lemma {:induction false} RewriteAtMatch(s: string, i: nat, lens: seq<nat>, probe: string -> LinkProbe, k: nat)
    requires FitsIn(s, lens) && i < |s| && lens[i] > 0 && k < |Scan(s, i, lens)|
    ensures k == 0 ==> Contains(RewriteFrom(s, i, lens, probe), Resolution(Scan(s, i, lens)[k], probe))
    ensures k > 0 ==> k - 1 < |Scan(s, i + lens[i], lens)| && Scan(s, i, lens)[k] == Scan(s, i + lens[i], lens)[k - 1]
  {
    var target := Resolution(s[i..i + lens[i]], probe);
    var rest := RewriteFrom(s, i + lens[i], lens, probe);
    if k == 0 {
      ContainsMiddle([], target, rest);
      assert [] + target + rest == target + rest;
    }
  }

  /** The step of `RewriteKeepsResolutions` at a match, for a later one. */
  lemma {:induction false} RewriteAfterMatch(s: string, i: nat, lens: seq<nat>, probe: string -> LinkProbe, k: nat)
    requires FitsIn(s, lens) && i < |s| && lens[i] > 0 && 0 < k < |Scan(s, i, lens)|
    requires k - 1 < |Scan(s, i + lens[i], lens)| && Scan(s, i, lens)[k] == Scan(s, i + lens[i], lens)[k - 1]
    requires Contains(RewriteFrom(s, i + lens[i], lens, probe), Resolution(Scan(s, i + lens[i], lens)[k - 1], probe))
    ensures Contains(RewriteFrom(s, i, lens, probe), Resolution(Scan(s, i, lens)[k], probe))
  {
    ContainsAfter(Resolution(s[i..i + lens[i]], probe), RewriteFrom(s, i + lens[i], lens, probe),
                  Resolution(Scan(s, i, lens)[k], probe));
  }

  /** The step of `RewriteKeepsResolutions` at an index that starts no match. */
  lemma {:induction false} RewriteAfterSkip(s: string, i: nat, lens: seq<nat>, probe: string -> LinkProbe, k: nat)
    requires FitsIn(s, lens) && i < |s| && lens[i] == 0 && k < |Scan(s, i, lens)|
    requires Contains(RewriteFrom(s, i + 1, lens, probe), Resolution(Scan(s, i + 1, lens)[k], probe))
    ensures Contains(RewriteFrom(s, i, lens, probe), Resolution(Scan(s, i, lens)[k], probe))
  {
    ContainsAfter([s[i]], RewriteFrom(s, i + 1, lens, probe), Resolution(Scan(s, i, lens)[k], probe));
  }

  /**
   * With the intended expansion, every link found in the text leaves its
   * resolution in the result, whatever the other probes answer; so a link
   * whose probe fails is still there, intact.
   */
  lemma {:induction false} ExpandMatchesKeepsResolutions(text: string, hosts: seq<string>, probe: string -> LinkProbe, k: nat)
    requires k < |FindLinks(text, hosts)|
    ensures Contains(ExpandMatches(text, hosts, probe), Resolution(FindLinks(text, hosts)[k], probe))
    ensures !Resolves(probe(FindLinks(text, hosts)[k]))
            ==> Contains(ExpandMatches(text, hosts, probe), FindLinks(text, hosts)[k])
  {
    RewriteKeepsResolutions(text, 0, MatchLengths(text, hosts), probe, k);
  }

  /** The rewrite copies indices that start no match. */
  lemma {:induction false} RewriteSkips(s: string, i: nat, j: nat, lens: seq<nat>, probe: string -> LinkProbe)
    requires FitsIn(s, lens) && i <= j <= |s| && NoMatchIn(lens, i, j)
    ensures RewriteFrom(s, i, lens, probe) == s[i..j] + RewriteFrom(s, j, lens, probe)
    decreases j - i
  {
    if i < j {
      assert s[i..j] == [s[i]] + s[i + 1..j];
      RewriteSkips(s, i + 1, j, lens, probe);
      ConsAppend(s[i], s[i + 1..j], RewriteFrom(s, j, lens, probe));
    }
  }

  /** A text where exactly the indices `p < q` start matches, the first ending by `q`. */
  predicate TwoMatches(s: string, lens: seq<nat>, p: nat, q: nat) {
    && FitsIn(s, lens) && p < q < |s| && lens[p] > 0 && p + lens[p] <= q && lens[q] > 0
    && forall m :: 0 <= m < |s| && m != p && m != q ==> lens[m] == 0
  }

  /** With exactly two matches, the links `l1` and `l2` around `gap`, the scan reports both, in order. */
  lemma {:induction false} ScanPair(l1: string, gap: string, l2: string, lens: seq<nat>)
    requires TwoMatches(l1 + gap + l2, lens, 0, |l1| + |gap|)
    requires lens[0] == |l1| && lens[|l1| + |gap|] == |l2|
    ensures Scan(l1 + gap + l2, 0, lens) == [l1, l2]
  {
    var s := l1 + gap + l2;
    MiddleOf(l1, gap, l2);
    assert s[0..|l1|] == l1 && s[|l1| + |gap|..|s|] == l2;
    ScanSkips(s, |l1|, |l1| + |gap|, lens);
  }

  /** With exactly two matches, the links `l1` and `l2` around `gap`, the rewrite replaces each by its resolution. */
  lemma {:induction false} RewritePair(l1: string, gap: string, l2: string, lens: seq<nat>, probe: string -> LinkProbe)
    requires TwoMatches(l1 + gap + l2, lens, 0, |l1| + |gap|)
    requires lens[0] == |l1| && lens[|l1| + |gap|] == |l2|
    ensures RewriteFrom(l1 + gap + l2, 0, lens, probe) == Resolution(l1, probe) + gap + Resolution(l2, probe)
  {
    var s := l1 + gap + l2;
    var q := |l1| + |gap|;
    MiddleOf(l1, gap, l2);
    assert s[0..|l1|] == l1 && s[q..|s|] == l2 && s[|l1|..q] == gap;
    RewriteSkips(s, |l1|, q, lens, probe);
    assert RewriteFrom(s, q, lens, probe) == Resolution(l2, probe) + RewriteFrom(s, |s|, lens, probe);
  }

  /**
   * `str.replace` of `l1` in `l1`, one character other than its first, then
   * `l1` extended by a shorter `c`: both occurrences are rewritten, the
   * second one being the start of the longer text.
   */
  lemma {:induction false} ReplaceThroughPrefix(l1: string, g: char, c: string, r: string)
    requires |l1| > 0 && g != l1[0] && |c| < |l1|
    ensures ReplaceAll(l1 + [g] + (l1 + c), l1, r) == r + [g] + r + c
  {
    Regroup(l1, [g], l1, c);
    ReplaceAtStart(l1, [g] + l1 + c, r);
    ReplaceAfterOther(g, l1, c, r);
  }

  /** `str.replace` of a text that opens with the target. */
  lemma {:induction false} ReplaceAtStart(target: string, rest: string, r: string)
    requires |target| > 0
    ensures ReplaceAll(target + rest, target, r) == r + ReplaceAll(rest, target, r)
  {
    var s := target + rest;
    assert s[..|target|] == target && s[|target|..] == rest;
    assert OccursAt(s, target, 0);
    ReplaceAtFirst(s, target, r);
  }

  /** `str.replace` of one other character, the target, and a tail too short to hold it. */
  lemma {:induction false} ReplaceAfterOther(g: char, target: string, c: string, r: string)
    requires |target| > 0 && g != target[0] && |c| < |target|
    ensures ReplaceAll([g] + target + c, target, r) == [g] + r + c
  {
    var tail := [g] + target + c;
    MiddleOf([g], target, c);
    assert OccursAt(tail, target, 1);
    MissesWithoutHead(tail, target, 0);
    ReplaceAtFirst(tail, target, r);
    ReplaceAbsent(c, target, r);
  }

  /** A `t.co` link whose path is the `n` letters or digits from `i + 13` on, followed by something else. */
  lemma {:induction false} ShortLinkLength(s: string, i: nat, n: nat)
    requires i + 13 + n <= |s| && n > 0
    requires s[i..i + 8] == LINK_SCHEME && s[i + 8..i + 12] == "t.co" && s[i + 12] == '/'
    requires forall k :: i + 13 <= k < i + 13 + n ==> IsAlnum(s[k])
    requires i + 13 + n == |s| || !IsAlnum(s[i + 13 + n])
    ensures LinkLengthAt(s, i, SHORTENERS) == 13 + n
  {
    AlnumRunIs(s, i + 13, n);
    assert HostAt(s, i + 8, "t.co") by {
      forall k | 0 <= k < 4 ensures PatternCharMatches("t.co"[k], s[i + 8 + k]) {
        assert s[i + 8..i + 12][k] == s[i + 8 + k];
      }
    }
    assert AlternativeAt(s, i + 8, SHORTENERS[0]);
  }

  /** In "https://t.co/ab https://t.co/abc" the first link is matched at index 0. */
  lemma {:induction false} PrefixPairFirst()
    ensures LinkLengthAt("https://t.co/ab" + " " + "https://t.co/abc", 0, SHORTENERS) == 15
  {
    var l1 := "https://t.co/ab";
    var s := l1 + " " + "https://t.co/abc";
    MiddleOf(l1, " ", "https://t.co/abc");
    assert l1[..8] == LINK_SCHEME && l1[8..12] == "t.co";
    assert s[..8] == l1[..8] && s[8..12] == l1[8..12];
    ShortLinkLength(s, 0, 2);
  }

  /** In "https://t.co/ab https://t.co/abc" the second link is matched at index 16. */
  lemma {:induction false} PrefixPairSecond()
    ensures LinkLengthAt("https://t.co/ab" + " " + "https://t.co/abc", 16, SHORTENERS) == 16
  {
    var l2 := "https://t.co/abc";
    var s := "https://t.co/ab" + " " + l2;
    MiddleOf("https://t.co/ab", " ", l2);
    assert l2[..8] == LINK_SCHEME && l2[8..12] == "t.co";
    assert s[16..24] == l2[..8] && s[24..28] == l2[8..12];
    ShortLinkLength(s, 16, 3);
  }

  /** In "https://t.co/ab https://t.co/abc" no other index starts a match: none other holds an `h`. */
  lemma {:induction false} PrefixPairElsewhere(m: nat)
    requires m <= 32 && m != 0 && m != 16
    ensures LinkLengthAt("https://t.co/ab" + " " + "https://t.co/abc", m, SHORTENERS) == 0
  {
    var s := "https://t.co/ab" + " " + "https://t.co/abc";
    if m < |s| {
      assert s[m] != 'h';
      MissesWithoutHead(s, LINK_SCHEME, m);
    }
  }

  /** The match lengths of "https://t.co/ab https://t.co/abc" mark the two links and nothing else. */
  lemma {:induction false} PrefixPairMatches()
    ensures TwoMatches("https://t.co/ab" + " " + "https://t.co/abc",
                       MatchLengths("https://t.co/ab" + " " + "https://t.co/abc", SHORTENERS), 0, 16)
  {
    var s := "https://t.co/ab" + " " + "https://t.co/abc";
    var lens := MatchLengths(s, SHORTENERS);
    PrefixPairFirst();
    PrefixPairSecond();
    forall m | 0 <= m < |s| && m != 0 && m != 16 ensures lens[m] == 0 {
      PrefixPairElsewhere(m);
    }
  }

  /** "https://t.co/ab https://t.co/abc" holds two links, the first a prefix of the second. */
  lemma {:induction false} PrefixPairFound()
    ensures FindLinks("https://t.co/ab" + " " + "https://t.co/abc", SHORTENERS) == ["https://t.co/ab", "https://t.co/abc"]
  {
    var s := "https://t.co/ab" + " " + "https://t.co/abc";
    PrefixPairMatches();
    PrefixPairFirst();
    PrefixPairSecond();
    ScanPair("https://t.co/ab", " ", "https://t.co/abc", MatchLengths(s, SHORTENERS));
  }

  /**
   * As written, `prepare_text` loses a link whose probe failed when a link
   * found before it is its prefix and resolves: the first `str.replace`
   * also rewrites the start of the second link.
   */
  lemma {:induction false} ReplaceRewritesUnresolvedLink(probe: string -> LinkProbe, sourceUrl: string, tweetId: int)
    requires probe("https://t.co/ab") == ProbeResponse(301, Some("X"))
    requires probe("https://t.co/abc") == ProbeRaised
    ensures PrepareText(Tweet("https://t.co/ab" + " " + "https://t.co/abc", sourceUrl, tweetId), probe)
            == "X" + " " + "X" + "c" + Footer(sourceUrl)
    ensures !Contains("X" + " " + "X" + "c", "https://t.co/abc")
  {
    var l1, l2 := "https://t.co/ab", "https://t.co/abc";
    var s := l1 + " " + l2;
    PrefixPairFound();
    assert Resolution(l1, probe) == "X" && Resolution(l2, probe) == l2;
    assert l2 == l1 + "c";
    ReplaceThroughPrefix(l1, ' ', "c", "X");
    var once := "X" + " " + "X" + "c";
    assert ExpandLinks(s, [l1, l2], probe) == ExpandLinks(once, [l2], probe);
    ReplaceBySelf(once, l2);
  }

  /** With the intended expansion, the same tweet keeps the link whose probe failed. */
  lemma {:induction false} ExpandMatchesKeepsUnresolvedLink(probe: string -> LinkProbe)
    requires probe("https://t.co/ab") == ProbeResponse(301, Some("X"))
    requires probe("https://t.co/abc") == ProbeRaised
    ensures ExpandMatches("https://t.co/ab" + " " + "https://t.co/abc", SHORTENERS, probe)
            == "X" + " " + "https://t.co/abc"
  {
    var s := "https://t.co/ab" + " " + "https://t.co/abc";
    PrefixPairMatches();
    PrefixPairFirst();
    PrefixPairSecond();
    RewritePair("https://t.co/ab", " ", "https://t.co/abc", MatchLengths(s, SHORTENERS), probe);
  }
}
