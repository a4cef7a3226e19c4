/** The link verifier (verify_and_update_links.py): the scanner that turns a
    loose text file into (title, url) pairs, the classification of one HTTP
    check, and the three-line-per-entry file it writes back.  The HTTP
    exchange itself is a parameter: the outcome of the HEAD request and of
    the GET fallback are given as values. */
module LinkVerifier {
  import opened Wrappers
  import opened Text

  const YouTube := "https://www.youtube.com"
  const UrlScheme := "http"
  const Untitled := "Untitled"
  const AppleMarker := "apple.com"
  const AppleKeyword := "Apple Music"
  const AppleProfile := "https://music.apple.com/"
  const AppleTitle := "Apple Music (Artist)"
  const SpotifyMarker := "open.spotify.com"
  const SpotifyKeyword := "Spotify"
  const SpotifyProfile := "https://open.spotify.com/"
  const SpotifyTitle := "Spotify (Artist)"

  datatype Pair = Pair(title: string, url: string)

  // ---------------------------------------------------------------------------
  // Repair of a doubled YouTube prefix
  // ---------------------------------------------------------------------------

  /** Two occurrences of the YouTube prefix never overlap: its first
      character does not occur again inside it. */
  lemma YouTubeOccurrencesApart(s: string, a: int, b: int)
    requires OccursAt(s, YouTube, a) && OccursAt(s, YouTube, b) && a < b
    ensures a + |YouTube| <= b
  {
    assert forall d :: 1 <= d < |YouTube| ==> YouTube[d] != 'h';
    assert forall d :: a < d < a + |YouTube| ==> s[d] == s[a..a + |YouTube|][d - a];
    assert s[b] == s[b..b + |YouTube|][0] == 'h';
  }

  lemma CountFromPositive(s: string, p: string, from: nat)
    requires |p| > 0 && CountFrom(s, p, from) > 0
    ensures Find(s, p, from) != -1
  {
  }

  /** With at least two prefixes there is a second one after the first. */
  lemma SecondOccurrence(url: string)
    requires Count(url, YouTube) > 1
    ensures Find(url, YouTube, 0) != -1
    ensures Find(url, YouTube, Find(url, YouTube, 0) + 1) != -1
  {
    var first := Find(url, YouTube, 0);
    CountFromPositive(url, YouTube, 0);
    CountFromPositive(url, YouTube, first + |YouTube|);
    var later := Find(url, YouTube, first + |YouTube|);
    assert OccursAt(url, YouTube, later);
  }

  /** The repair in `parse_links`: a URL holding the YouTube prefix more than
      once is cut just before the second occurrence; otherwise unchanged. */
  function RepairUrl(url: string): (r: string)
    ensures StartsWith(url, r)
    ensures Count(url, YouTube) <= 1 ==> r == url
    ensures Count(url, YouTube) > 1 ==>
              var first := Find(url, YouTube, 0);
              && OccursAt(url, YouTube, |r|)
              && first < |r|
              && (forall k :: first < k < |r| ==> !OccursAt(url, YouTube, k))
              && (forall k :: OccursAt(r, YouTube, k) <==> k == first)
              && Count(r, YouTube) == 1
  {
    if Count(url, YouTube) > 1 then
      SecondOccurrence(url);
      var first := Find(url, YouTube, 0);
      var second := Find(url, YouTube, first + 1);
      RepairedHasOneOccurrence(url, first, second);
      url[..second]
    else
      url
  }

  lemma RepairedHasOneOccurrence(url: string, first: int, second: int)
    requires first == Find(url, YouTube, 0) && first != -1
    requires second == Find(url, YouTube, first + 1) && second != -1
    ensures forall k :: OccursAt(url[..second], YouTube, k) <==> k == first
    ensures Count(url[..second], YouTube) == 1
  {
    var r := url[..second];
    YouTubeOccurrencesApart(url, first, second);
    forall k
      ensures OccursAt(r, YouTube, k) <==> k == first
    {
      OccursInPrefix(url, second, YouTube, k);
    }
    assert OccursAt(r, YouTube, first);
    var f := Find(r, YouTube, 0);
    assert f != -1 && OccursAt(r, YouTube, f);
    assert f == first;
    assert Find(r, YouTube, first + |YouTube|) == -1;
    assert CountFrom(r, YouTube, first + |YouTube|) == 0;
    assert CountFrom(r, YouTube, 0) == 1 + CountFrom(r, YouTube, first + |YouTube|);
  }

  // ---------------------------------------------------------------------------
  // The line scanner
  // ---------------------------------------------------------------------------

  /** `[l.strip() for l in text.splitlines()]` */
  function StrippedLines(text: string): (lines: seq<string>)
    ensures |lines| == |SplitLines(text)|
  {
    StripEach(SplitLines(text))
  }

  /** Every line stripped, in order. */
  function StripEach(raw: seq<string>): (lines: seq<string>)
    ensures |lines| == |raw|
  {
    if |raw| == 0 then [] else [Strip(raw[0])] + StripEach(raw[1..])
  }

  lemma {:induction false} StripEachAt(raw: seq<string>, n: nat)
    requires n < |raw|
    ensures StripEach(raw)[n] == Strip(raw[n])
    decreases n
  {
    if n > 0 {
      StripEachAt(raw[1..], n - 1);
    }
  }

  /** The next non-empty line at or after `j`, or `|lines|` when none. */
  function NextNonEmpty(lines: seq<string>, j: nat): (k: nat)
    requires j <= |lines|
    ensures j <= k <= |lines|
    ensures k < |lines| ==> lines[k] != ""
    ensures forall m :: j <= m < k ==> lines[m] == ""
    decreases |lines| - j
  {
    if j == |lines| || lines[j] != "" then j else NextNonEmpty(lines, j + 1)
  }

  /** Every line from `i` on is empty. */
  predicate BlankFrom(lines: seq<string>, i: nat) {
    forall m :: i <= m < |lines| ==> lines[m] == ""
  }

  /** Where the scanner found a URL line and, when there was one, the line it
      took as that URL's title. */
  datatype Hit = Hit(at: nat, titleAt: Option<nat>) {
    /** The last line the hit consumed. */
    function Last(): nat { titleAt.GetOr(at) }
  }

  /** A hit found at or after line `i`: its URL line starts with "http"; its
      title is the next non-empty line; it has no title only when every later
      line is empty. */
  ghost predicate WellPlaced(lines: seq<string>, i: nat, h: Hit) {
    && i <= h.at < |lines|
    && StartsWith(lines[h.at], UrlScheme)
    && match h.titleAt
       case Some(j) =>
         && h.at < j < |lines| && lines[j] != ""
         && forall m :: h.at < m < j ==> lines[m] == ""
       case None =>
         forall m :: h.at < m < |lines| ==> lines[m] == ""
  }

  /** The scan loop of `parse_links` from line `i` on: a URL line takes the
      next non-empty line as its title and scanning resumes after that title,
      or, when no non-empty line follows, the URL stays untitled and scanning
      resumes on the next line.  Each step strictly advances `i`. */
  function Scan(lines: seq<string>, i: nat): (hs: seq<Hit>)
    requires i <= |lines|
    ensures forall n :: 0 <= n < |hs| ==> WellPlaced(lines, i, hs[n])
    ensures forall n, m :: 0 <= n < m < |hs| ==> hs[n].Last() < hs[m].at
    ensures forall n :: 0 <= n < |hs| - 1 ==> hs[n].titleAt.Some?
    ensures BlankFrom(lines, i) ==> hs == []
    decreases |lines| - i
  {
    if i == |lines| then []
    else if StartsWith(lines[i], UrlScheme) then
      var j := NextNonEmpty(lines, i + 1);
      if j < |lines| then [Hit(i, Some(j))] + Scan(lines, j + 1)
      else
        [Hit(i, None)] + Scan(lines, i + 1)
    else Scan(lines, i + 1)
  }

  /** One step of the scan over a line that is no URL. */
  lemma ScanSkips(lines: seq<string>, i: nat)
    requires i < |lines| && !StartsWith(lines[i], UrlScheme)
    ensures Scan(lines, i) == Scan(lines, i + 1)
  {
  }

  /** One step of the scan over a URL line whose title is line `j`. */
  lemma ScanTakesTitle(lines: seq<string>, i: nat, j: nat)
    requires i < j < |lines| && StartsWith(lines[i], UrlScheme)
    requires lines[j] != "" && forall m :: i < m < j ==> lines[m] == ""
    ensures Scan(lines, i) == [Hit(i, Some(j))] + Scan(lines, j + 1)
  {
    assert NextNonEmpty(lines, i + 1) == j by {
      NextNonEmptyAt(lines, i + 1, j);
    }
  }

  lemma {:induction false} NextNonEmptyAt(lines: seq<string>, i: nat, j: nat)
    requires i <= j < |lines| && lines[j] != ""
    requires forall m :: i <= m < j ==> lines[m] == ""
    ensures NextNonEmpty(lines, i) == j
    decreases j - i
  {
    if i < j {
      NextNonEmptyAt(lines, i + 1, j);
    }
  }

  /** Line `k` is the URL line or the title line of one of the hits. */
  predicate Covered(hs: seq<Hit>, k: nat) {
    exists n :: 0 <= n < |hs| && (hs[n].at == k || hs[n].titleAt == Some(k))
  }

  lemma CoveredCons(h: Hit, rest: seq<Hit>, k: nat)
    requires Covered(rest, k)
    ensures Covered([h] + rest, k)
  {
    var n :| 0 <= n < |rest| && (rest[n].at == k || rest[n].titleAt == Some(k));
    assert ([h] + rest)[n + 1] == rest[n];
  }

  /** No line that starts with "http" is skipped: each is either a URL line
      or a line taken as the title of the URL before it. */
  lemma {:induction false} ScanCoversUrlLines(lines: seq<string>, i: nat, k: nat)
    requires i <= k < |lines| && StartsWith(lines[k], UrlScheme)
    ensures Covered(Scan(lines, i), k)
    decreases |lines| - i
  {
    if k == i {
      assert Scan(lines, i)[0].at == k;
    } else if !StartsWith(lines[i], UrlScheme) {
      ScanSkips(lines, i);
      ScanCoversUrlLines(lines, i + 1, k);
    } else {
      var j := NextNonEmpty(lines, i + 1);
      assert lines[k] != "";
      if j == k {
        assert Scan(lines, i)[0] == Hit(i, Some(j));
      } else {
        ScanTakesTitle(lines, i, j);
        ScanCoversUrlLines(lines, j + 1, k);
        CoveredCons(Hit(i, Some(j)), Scan(lines, j + 1), k);
      }
    }
  }

  /** The pair a hit produces. */
  function PairOf(lines: seq<string>, h: Hit): Pair
    requires h.at < |lines|
    requires h.titleAt.Some? ==> h.titleAt.value < |lines|
  {
    match h.titleAt
    case Some(j) => Pair(lines[j], RepairUrl(lines[h.at]))
    case None => Pair(Untitled, RepairUrl(lines[h.at]))
  }

  /** The pairs of the scan loop, in the order the loop appends them. */
  function ScannedPairs(lines: seq<string>): (ps: seq<Pair>)
    ensures |ps| == |Scan(lines, 0)|
    ensures forall n :: 0 <= n < |ps| ==>
              var h := Scan(lines, 0)[n];
              && ps[n].url == RepairUrl(lines[h.at])
              && StartsWith(lines[h.at], ps[n].url)
              && StartsWith(lines[h.at], UrlScheme)
              && (h.titleAt.Some? ==> ps[n].title == lines[h.titleAt.value] != "")
              && (h.titleAt.None? ==> ps[n].title == Untitled && n == |ps| - 1)
  {
    var hs := Scan(lines, 0);
    seq(|hs|, n requires 0 <= n < |hs| => PairOf(lines, hs[n]))
  }

  // ---------------------------------------------------------------------------
  // Synthetic artist-profile pairs
  // ---------------------------------------------------------------------------

  predicate IsNotSpace(c: char) { !IsSpace(c) }

  /** `prefix` occurs at `k` and a non-space character follows it. */
  predicate ProfileAt(text: string, prefix: string, k: int) {
    && OccursAt(text, prefix, k)
    && k + |prefix| < |text|
    && !IsSpace(text[k + |prefix|])
  }

  /** `prefix` at `k` with the whole run of non-space characters after it. */
  function ProfileRun(text: string, prefix: string, k: nat): (m: string)
    requires k + |prefix| <= |text|
    ensures |m| >= |prefix|
  {
    text[k..k + |prefix| + LeadingCount(text[k + |prefix|..], IsNotSpace)]
  }

  /** `re.search("(" + prefix + r"\S+)", text)` from position `from`: the
      regex engine tries each start position in turn and, at the first where
      `prefix` is followed by a non-space character, takes the whole run of
      non-space characters. */
  function SearchProfile(text: string, prefix: string, from: nat): (r: Option<string>)
    requires |prefix| > 0
    ensures r.Some? ==>
              && StartsWith(r.value, prefix) && |r.value| > |prefix|
              && (forall k :: |prefix| <= k < |r.value| ==> !IsSpace(r.value[k]))
    decreases |text| + 1 - from
  {
    if from + |prefix| >= |text| then None
    else if ProfileAt(text, prefix, from) then
      var m := ProfileRun(text, prefix, from);
      assert m[..|prefix|] == text[from..from + |prefix|];
      Some(m)
    else SearchProfile(text, prefix, from + 1)
  }

  /** The search finds nothing exactly when no profile link starts at or
      after `from`; otherwise it is the run at the first one. */
  lemma {:induction false} SearchProfileSpec(text: string, prefix: string, from: nat)
    requires |prefix| > 0
    ensures var r := SearchProfile(text, prefix, from);
            && (r.None? <==> forall k :: from <= k ==> !ProfileAt(text, prefix, k))
            && (r.Some? ==> exists k: nat :: && from <= k && k + |prefix| < |text|
                                             && ProfileAt(text, prefix, k)
                                             && r.value == ProfileRun(text, prefix, k)
                                             && forall j :: from <= j < k ==> !ProfileAt(text, prefix, j))
    decreases |text| + 1 - from
  {
    if from + |prefix| < |text| && !ProfileAt(text, prefix, from) {
      SearchProfileSpec(text, prefix, from + 1);
      var r := SearchProfile(text, prefix, from);
      if r.Some? {
        var k: nat :| && from + 1 <= k && k + |prefix| < |text|
                      && ProfileAt(text, prefix, k)
                      && r.value == ProfileRun(text, prefix, k)
                      && forall j :: from + 1 <= j < k ==> !ProfileAt(text, prefix, j);
        assert forall j :: from <= j < k ==> !ProfileAt(text, prefix, j);
      } else {
        assert forall k :: from <= k ==> !ProfileAt(text, prefix, k);
      }
    }
  }

  predicate AnyTitleContains(pairs: seq<Pair>, word: string) {
    exists n :: 0 <= n < |pairs| && Contains(pairs[n].title, word)
  }

  /** The two guarded appends at the end of `parse_links`: when `marker`
      occurs in the text and no title so far contains `keyword`, the first
      profile link found in the text is appended under `title`. */
  function AppendProfile(pairs: seq<Pair>, text: string, marker: string, keyword: string,
                         profile: string, title: string): (r: seq<Pair>)
    requires |profile| > 0
    ensures r == pairs || (|r| == |pairs| + 1 && r[..|pairs|] == pairs && r[|pairs|].title == title)
  {
    if Contains(text, marker) && !AnyTitleContains(pairs, keyword) then
      match SearchProfile(text, profile, 0)
      case Some(u) => pairs + [Pair(title, u)]
      case None => pairs
    else pairs
  }

  /** The pair is appended exactly when the guard holds and the text has a
      profile link, and it carries that link. */
  lemma AppendProfileSpec(pairs: seq<Pair>, text: string, marker: string, keyword: string,
                          profile: string, title: string)
    requires |profile| > 0
    ensures var r := AppendProfile(pairs, text, marker, keyword, profile, title);
            && (r != pairs <==>
                  Contains(text, marker) && !AnyTitleContains(pairs, keyword)
                  && SearchProfile(text, profile, 0).Some?)
            && (r != pairs ==> r == pairs + [Pair(title, SearchProfile(text, profile, 0).value)])
  {
    var r := AppendProfile(pairs, text, marker, keyword, profile, title);
    if r != pairs {
      assert |r| == |pairs| + 1;
    }
  }

  /** `parse_links`: the scanned pairs in source order, then possibly the
      Apple Music profile, then possibly the Spotify profile. */
  function ParseLinks(text: string): (pairs: seq<Pair>)
    ensures var scanned := ScannedPairs(StrippedLines(text));
            && |scanned| <= |pairs| <= |scanned| + 2
            && pairs[..|scanned|] == scanned
            && (forall n :: |scanned| <= n < |pairs| ==>
                  pairs[n].title == AppleTitle || pairs[n].title == SpotifyTitle)
            && (|pairs| == |scanned| + 2 ==>
                  pairs[|scanned|].title == AppleTitle && pairs[|scanned| + 1].title == SpotifyTitle)
  {
    var scanned := ScannedPairs(StrippedLines(text));
    var withApple := AppendProfile(scanned, text, AppleMarker, AppleKeyword, AppleProfile, AppleTitle);
    AppendProfile(withApple, text, SpotifyMarker, SpotifyKeyword, SpotifyProfile, SpotifyTitle)
  }

  lemma AppleTitleHasNoSpotify()
    ensures !Contains(AppleTitle, SpotifyKeyword)
  {
    assert forall k :: 0 <= k < |AppleTitle| ==> AppleTitle[k] != 'S';
    forall k | 0 <= k <= |AppleTitle| - |SpotifyKeyword|
      ensures !OccursAt(AppleTitle, SpotifyKeyword, k)
    {
      assert AppleTitle[k..k + |SpotifyKeyword|][0] == AppleTitle[k];
    }
  }

  /** The guard under which `parse_links` appends the Apple Music profile. */
  predicate AppleAdded(text: string) {
    && Contains(text, AppleMarker)
    && !AnyTitleContains(ScannedPairs(StrippedLines(text)), AppleKeyword)
    && SearchProfile(text, AppleProfile, 0).Some?
  }

  /** The guard under which `parse_links` appends the Spotify profile. */
  predicate SpotifyAdded(text: string) {
    && Contains(text, SpotifyMarker)
    && !AnyTitleContains(ScannedPairs(StrippedLines(text)), SpotifyKeyword)
    && SearchProfile(text, SpotifyProfile, 0).Some?
  }

  lemma AppendedTitlesKeepKeyword(pairs: seq<Pair>, extra: Pair)
    requires !Contains(extra.title, SpotifyKeyword)
    ensures AnyTitleContains(pairs + [extra], SpotifyKeyword) <==> AnyTitleContains(pairs, SpotifyKeyword)
  {
    var ps := pairs + [extra];
    if AnyTitleContains(ps, SpotifyKeyword) {
      var n :| 0 <= n < |ps| && Contains(ps[n].title, SpotifyKeyword);
      assert n < |pairs| && ps[n] == pairs[n];
    }
    if AnyTitleContains(pairs, SpotifyKeyword) {
      var n :| 0 <= n < |pairs| && Contains(pairs[n].title, SpotifyKeyword);
      assert ps[n] == pairs[n];
    }
  }

  /** Each synthetic pair is appended at most once, exactly when its marker
      is in the text, no scanned title names the platform, and the text holds
      a profile link; the Apple pair comes before the Spotify pair.  (The Apple
      title does not mention Spotify, so the Spotify guard only looks at the
      scanned titles.) */
  lemma ProfilePairs(text: string)
    ensures var scanned := ScannedPairs(StrippedLines(text));
            var pairs := ParseLinks(text);
            && |pairs| == |scanned| + (if AppleAdded(text) then 1 else 0) + (if SpotifyAdded(text) then 1 else 0)
            && (AppleAdded(text) ==>
                  pairs[|scanned|] == Pair(AppleTitle, SearchProfile(text, AppleProfile, 0).value))
            && (SpotifyAdded(text) ==>
                  pairs[|pairs| - 1] == Pair(SpotifyTitle, SearchProfile(text, SpotifyProfile, 0).value))
  {
    var scanned := ScannedPairs(StrippedLines(text));
    var withApple := AppendProfile(scanned, text, AppleMarker, AppleKeyword, AppleProfile, AppleTitle);
    AppendProfileSpec(scanned, text, AppleMarker, AppleKeyword, AppleProfile, AppleTitle);
    AppendProfileSpec(withApple, text, SpotifyMarker, SpotifyKeyword, SpotifyProfile, SpotifyTitle);
    if withApple != scanned {
      AppleTitleHasNoSpotify();
      AppendedTitlesKeepKeyword(scanned, withApple[|scanned|]);
      assert withApple == scanned + [withApple[|scanned|]];
    }
  }

  // ---------------------------------------------------------------------------
  // One HTTP check
  // ---------------------------------------------------------------------------

  /** A response after redirects: its status code and final URL. */
  datatype Response = Response(status: int, url: string)

  /** The outcome of one request: a response, or an exception and its text. */
  datatype Attempt = Answered(response: Response) | Raised(message: string)

  datatype CheckResult = CheckResult(ok: bool, status: Option<int>, finalUrl: string, error: Option<string>)

  /** The result recorded for a request outcome. */
  function Classify(url: string, a: Attempt): (r: CheckResult)
    ensures r.ok <==> r.status.Some? && 200 <= r.status.value < 300
    ensures a.Answered? ==> r.status == Some(a.response.status) && r.finalUrl == a.response.url && r.error.None?
    ensures a.Raised? ==> r == CheckResult(false, None, url, Some(a.message))
  {
    match a
    case Answered(resp) => CheckResult(200 <= resp.status < 300, Some(resp.status), resp.url, None)
    case Raised(e) => CheckResult(false, None, url, Some(e))
  }

  /** `check_url`: HEAD first; a HEAD status of 400 or more (405 included)
      falls back to GET, whose outcome is then the one recorded. */
  function CheckUrl(url: string, head: Attempt, get: Attempt): (r: CheckResult)
    ensures r.ok <==> r.status.Some? && 200 <= r.status.value < 300
    ensures r.error.Some? <==> r.status.None?
    ensures r.error.Some? ==> !r.ok && r.finalUrl == url
    ensures head.Raised? ==> r.error == Some(head.message)
    ensures head.Answered? && head.response.status < 400 ==>
              r.status == Some(head.response.status) && r.finalUrl == head.response.url
    ensures head.Answered? && head.response.status >= 400 ==> r == Classify(url, get)
  {
    match head
    case Raised(e) => Classify(url, head)
    case Answered(resp) =>
      if resp.status >= 400 || resp.status == 405 then Classify(url, get) else Classify(url, head)
  }

  /** `{**pair, **check}`: one entry of the results list. */
  datatype LinkRecord = LinkRecord(title: string, url: string, ok: bool, status: Option<int>,
                                   finalUrl: string, error: Option<string>)

  function Merge(p: Pair, c: CheckResult): LinkRecord {
    LinkRecord(p.title, p.url, c.ok, c.status, c.finalUrl, c.error)
  }

  /** The network, as seen by `main`: for each URL, the HEAD and GET outcomes. */
  type Network = string -> (Attempt, Attempt)

  /** One entry of `main`'s results list. */
  function CheckOne(p: Pair, net: Network): (r: LinkRecord)
    ensures r.title == p.title && r.url == p.url
    ensures r.ok <==> r.status.Some? && 200 <= r.status.value < 300
    ensures r.error.Some? ==> r.finalUrl == p.url
  {
    Merge(p, CheckUrl(p.url, net(p.url).0, net(p.url).1))
  }

  /** The results list of `main`: one checked record per parsed pair, in order. */
  function CheckAll(pairs: seq<Pair>, net: Network): (rs: seq<LinkRecord>)
    ensures |rs| == |pairs|
    ensures forall n :: 0 <= n < |pairs| ==>
              && rs[n].title == pairs[n].title && rs[n].url == pairs[n].url
              && (rs[n].ok <==> rs[n].status.Some? && 200 <= rs[n].status.value < 300)
              && (rs[n].error.Some? ==> rs[n].finalUrl == pairs[n].url)
  {
    seq(|pairs|, n requires 0 <= n < |pairs| => CheckOne(pairs[n], net))
  }

  // ---------------------------------------------------------------------------
  // The rewritten link file
  // ---------------------------------------------------------------------------

  /** `"OK"` or `f"BAD ({status})"`, where a missing status prints as None. */
  function StatusText(r: LinkRecord): string {
    if r.ok then "OK"
    else "BAD (" + (match r.status case Some(s) => IntToString(s) case None => "None") + ")"
  }

  function StatusLine(r: LinkRecord): string { "Status: " + StatusText(r) }

  /** Printable ASCII: never whitespace other than ' ', never a line boundary. */
  predicate Printable(s: string) {
    forall k :: 0 <= k < |s| ==> ' ' <= s[k] <= '~'
  }

  lemma PrintableConcat(a: string, b: string)
    requires Printable(a) && Printable(b)
    ensures Printable(a + b)
  {
    forall k | 0 <= k < |a + b|
      ensures ' ' <= (a + b)[k] <= '~'
    {
      if k >= |a| {
        assert (a + b)[k] == b[k - |a|];
      }
    }
  }

  lemma StatusTextPrintable(r: LinkRecord)
    ensures Printable(StatusText(r))
    ensures |StatusText(r)| > 0 && StatusText(r)[|StatusText(r)| - 1] != ' '
  {
    if !r.ok {
      var inner := match r.status case Some(s) => IntToString(s) case None => "None";
      assert Printable(inner);
      PrintableConcat("BAD (", inner);
      PrintableConcat("BAD (" + inner, ")");
      assert StatusText(r) == "BAD (" + inner + ")";
    }
  }

  /** The status line says OK exactly for a record whose check was ok. */
  lemma StatusLineOk(r: LinkRecord)
    ensures StatusLine(r) == "Status: OK" <==> r.ok
  {
    if !r.ok {
      assert StatusLine(r)[8] == StatusText(r)[0] == 'B';
    }
  }

  /** A status line is a single stripped, non-empty line that does not look
      like a URL. */
  lemma StatusLineShape(r: LinkRecord)
    ensures !StartsWith(StatusLine(r), UrlScheme)
    ensures StatusLine(r) != "" && Strip(StatusLine(r)) == StatusLine(r)
    ensures NoLineBoundary(StatusLine(r))
  {
    var t := StatusText(r);
    var s := StatusLine(r);
    assert s == "Status: " + t;
    StatusTextPrintable(r);
    PrintableConcat("Status: ", t);
    assert s[0] == 'S';
    assert s[|s| - 1] == t[|t| - 1];
    PrintableStripped(s);
    PrintableSingleLine(s);
  }

  lemma PrintableSingleLine(s: string)
    requires Printable(s)
    ensures NoLineBoundary(s)
  {
    forall k | 0 <= k < |s|
      ensures !IsLineBoundary(s[k])
    {
      assert ' ' <= s[k] <= '~';
    }
  }

  /** A printable line whose ends are not blanks is its own `strip()`. */
  lemma PrintableStripped(s: string)
    requires Printable(s) && |s| > 0 && s[0] != ' ' && s[|s| - 1] != ' '
    ensures Strip(s) == s
  {
    assert ' ' <= s[0] <= '~' && ' ' <= s[|s| - 1] <= '~';
    assert !IsSpace(s[0]) && !IsSpace(s[|s| - 1]);
  }

  /** The three lines written for one result, in the order `main` writes them:
      title, final URL, status. */
  function EntryLines(r: LinkRecord): seq<string> {
    [r.title, r.finalUrl, StatusLine(r)]
  }

  /** Blocks of lines separated by one empty line. */
  function Blocks(bs: seq<seq<string>>): seq<string> {
    if |bs| == 0 then []
    else if |bs| == 1 then bs[0]
    else bs[0] + [""] + Blocks(bs[1..])
  }

  /** The text `main` writes back: each entry's three lines with "\n"
      terminators, joined by "\n", stripped, plus one final "\n". */
  function RenderLinksFile(results: seq<LinkRecord>, layout: LinkRecord -> seq<string>): string {
    var blocks := seq(|results|, n requires 0 <= n < |results| => Terminated(layout(results[n])));
    Strip(Join(blocks, "\n")) + "\n"
  }
}
