/** The discography builder (build_discography.py): the lookup key `norm`,
    the display title derived from a cover file name, the publish date read
    from a video page, the title-to-link map, the track list and its
    chronological sort.  The directory listing, the links file and the page
    fetch are parameters. */
module Discography {
  import opened Wrappers
  import opened Text
  import opened Sorting
  import opened UrlEncoding

  const ImageExtensions := [".png", ".jpg", ".jpeg"]
  const MpgSuffix := "_mpg"
  const ArtistName := "MoneyPrinter G"
  const SpotifySearch := "https://open.spotify.com/search/"
  const AppleSearch := "https://music.apple.com/us/search?term="
  const CoversPrefix := "covers/"
  const UndatedKey := "9999-12-31"

  // ---------------------------------------------------------------------------
  // End-anchored substitutions
  // ---------------------------------------------------------------------------

  predicate EndsWithCase(s: string, p: string, ignoreCase: bool) {
    if ignoreCase then EndsWithIgnoreCase(s, p) else EndsWith(s, p)
  }

  /** The length of the first alternative `s` ends with. */
  function EndMatch(s: string, alts: seq<string>, ignoreCase: bool): (n: Option<nat>)
    ensures n.Some? ==> n.value <= |s|
  {
    if |alts| == 0 then None
    else if EndsWithCase(s, alts[0], ignoreCase) then Some(|alts[0]|)
    else EndMatch(s, alts[1..], ignoreCase)
  }

  /** `EndMatch` finds a match exactly when some alternative ends `s`, and
      what it cuts is one of the alternatives. */
  lemma {:induction false} EndMatchSpec(s: string, alts: seq<string>, ignoreCase: bool)
    ensures var n := EndMatch(s, alts, ignoreCase);
            && (n.Some? <==> exists i :: 0 <= i < |alts| && EndsWithCase(s, alts[i], ignoreCase))
            && (n.Some? ==> exists i :: 0 <= i < |alts| && EndsWithCase(s, alts[i], ignoreCase)
                                        && n.value == |alts[i]|)
    decreases |alts|
  {
    if |alts| > 0 && !EndsWithCase(s, alts[0], ignoreCase) {
      EndMatchSpec(s, alts[1..], ignoreCase);
      assert forall i :: 1 <= i < |alts| ==> alts[i] == alts[1..][i - 1];
    }
  }

  /** Python's `re.sub("(alt1|alt2|…)$", "", s)` for literal alternatives
      without "\n": `$` matches at the very end and also just before a final
      "\n", which is kept. */
  function PyCutEnd(s: string, alts: seq<string>, ignoreCase: bool): (r: string)
    ensures |r| <= |s|
    ensures EndMatch(s, alts, ignoreCase).None? && !(|s| > 0 && s[|s| - 1] == '\n') ==> r == s
  {
    match EndMatch(s, alts, ignoreCase)
    case Some(n) => s[..|s| - n]
    case None =>
      if |s| > 0 && s[|s| - 1] == '\n' then
        match EndMatch(s[..|s| - 1], alts, ignoreCase)
        case Some(n) => s[..|s| - 1 - n] + "\n"
        case None => s
      else s
  }

  // ---------------------------------------------------------------------------
  // norm and title_from_filename
  // ---------------------------------------------------------------------------

  /** `norm`: lower-case, drop a final `_mpg`, keep only `[a-z0-9]`.  It does
      not drop a file extension. */
  function PyNorm(s: string): (r: string)
    ensures forall k :: 0 <= k < |r| ==> IsLowerAlnum(r[k])
  {
    Keep(PyCutEnd(Lower(s), [MpgSuffix], false), IsLowerAlnum)
  }

  lemma LowerOfLowerAlnum(s: string)
    requires forall k :: 0 <= k < |s| ==> IsLowerAlnum(s[k])
    ensures Lower(s) == s
  {
  }

  /** A key is its own key. */
  lemma PyNormIdempotent(s: string)
    ensures PyNorm(PyNorm(s)) == PyNorm(s)
  {
    var r := PyNorm(s);
    LowerOfLowerAlnum(r);
    if |r| >= |MpgSuffix| {
      assert r[|r| - |MpgSuffix|..][0] != '_';
    }
    assert EndMatch(r, [MpgSuffix], false).None?;
    assert PyCutEnd(r, [MpgSuffix], false) == r;
  }

  /** A word starts at `k`: a `\w` character with no `\w` character before. */
  predicate WordStart(s: string, k: int)
    requires 0 <= k < |s|
  {
    IsWordChar(s[k]) && (k == 0 || !IsWordChar(s[k - 1]))
  }

  /** `re.sub(r"\b(\w)", upper, s)`: the first character of every word
      upper-cased, everything else unchanged. */
  function TitleCase(s: string): (r: string)
    ensures |r| == |s|
    ensures forall k :: 0 <= k < |s| ==> r[k] == (if WordStart(s, k) then UpperChar(s[k]) else s[k])
  {
    seq(|s|, k requires 0 <= k < |s| => if WordStart(s, k) then UpperChar(s[k]) else s[k])
  }

  /** The file name without its image extension and `_mpg` suffix, both
      matched ignoring case (`re.sub(..., flags=re.I)`). */
  function PyBaseName(name: string): string {
    PyCutEnd(PyCutEnd(name, ImageExtensions, true), [MpgSuffix], true)
  }

  /** `title_from_filename`. */
  function TitleFromFilename(name: string): (r: string)
    ensures |r| == |PyBaseName(name)|
  {
    TitleCase(ReplaceChar(PyBaseName(name), '_', ' '))
  }

  /** The title has no underscores, starts every word with a character that
      is not a lower-case letter, and is the base name with `_` read as a
      space once case is ignored; exactly the first character of each of its
      words is upper-cased, every other character is the base name's own. */
  lemma TitleFromFilenameSpec(name: string)
    ensures var r := TitleFromFilename(name);
            && (forall k :: 0 <= k < |r| ==> r[k] != '_')
            && (forall k :: 0 <= k < |r| && WordStart(r, k) ==> !IsAsciiLower(r[k]))
            && Lower(r) == Lower(ReplaceChar(PyBaseName(name), '_', ' '))
            && (forall k :: 0 <= k < |r| && WordStart(r, k) ==>
                  r[k] == UpperChar(ReplaceChar(PyBaseName(name), '_', ' ')[k]))
            && (forall k :: 0 <= k < |r| && !WordStart(r, k) ==> r[k] == ReplaceChar(PyBaseName(name), '_', ' ')[k])
  {
    var b := ReplaceChar(PyBaseName(name), '_', ' ');
    var r := TitleFromFilename(name);
    forall k | 0 <= k < |r|
      ensures IsWordChar(r[k]) == IsWordChar(b[k])
    {
    }
    forall k | 0 <= k < |r| && WordStart(r, k)
      ensures !IsAsciiLower(r[k])
    {
      assert WordStart(b, k);
    }
  }

  // ---------------------------------------------------------------------------
  // The corrected cover key
  // ---------------------------------------------------------------------------

  /** The key `build` computes for a cover file, as written: `norm(p.name)`,
      extension included. */
  function AsWrittenCoverKey(name: string): string {
    PyNorm(name)
  }

  /** The key of a cover file with its image extension dropped first, as the
      site script's `norm` does. */
  function CoverKey(name: string): (r: string)
    ensures forall k :: 0 <= k < |r| ==> IsLowerAlnum(r[k])
  {
    Keep(PyCutEnd(PyCutEnd(Lower(name), ImageExtensions, false), [MpgSuffix], false), IsLowerAlnum)
  }

  /** As written, a cover's key keeps its extension, so it differs from the
      key of a link titled with the cover's own display title: "a.png" has
      the key "apng" and the title "A", whose key is "a". */
  lemma AsWrittenCoverKeyExample()
    ensures AsWrittenCoverKey("a.png") == "apng"
    ensures TitleFromFilename("a.png") == "A"
    ensures PyNorm(TitleFromFilename("a.png")) == "a"
    ensures AsWrittenCoverKey("a.png") != PyNorm(TitleFromFilename("a.png"))
  {
    NormOfFileName();
    TitleOfFileName();
    NormOfTitle();
  }

  lemma NormOfFileName()
    ensures PyNorm("a.png") == "apng"
  {
    var name := "a.png";
    assert Lower(name) == name;
    assert EndMatch(name, [MpgSuffix], false).None?;
    assert PyCutEnd(name, [MpgSuffix], false) == name;
    assert name[1..] == ".png" && name[1..][1..] == "png";
    assert Keep("png", IsLowerAlnum) == "png";
    assert Keep(".png", IsLowerAlnum) == "png";
  }

  lemma TitleOfFileName()
    ensures TitleFromFilename("a.png") == "A"
  {
    var name := "a.png";
    assert EndsWithIgnoreCase(name, ".png");
    assert EndMatch(name, ImageExtensions, true) == Some(4);
    assert PyCutEnd(name, ImageExtensions, true) == "a";
    assert EndMatch("a", [MpgSuffix], true).None?;
    assert PyCutEnd("a", [MpgSuffix], true) == "a";
    assert ReplaceChar("a", '_', ' ') == "a";
    assert WordStart("a", 0);
    assert TitleCase("a") == "A";
  }

  lemma NormOfTitle()
    ensures PyNorm("A") == "a"
  {
    assert Lower("A") == "a";
    assert EndMatch("a", [MpgSuffix], false).None?;
    assert PyCutEnd("a", [MpgSuffix], false) == "a";
    assert Keep("a", IsLowerAlnum) == "a";
  }

  /** Lower-casing commutes with an end-anchored cut when the cut ignores
      case and its alternatives are lower-case. */
  lemma EndMatchLower(s: string, alts: seq<string>)
    ensures EndMatch(s, alts, true) == EndMatch(Lower(s), alts, false)
  {
    forall p | p in alts
      ensures EndsWithCase(s, p, true) == EndsWithCase(Lower(s), p, false)
    {
      if |p| <= |s| {
        assert Lower(s)[|s| - |p|..] == Lower(s[|s| - |p|..]);
      }
    }
    EndMatchAgree(s, Lower(s), alts);
  }

  lemma {:induction false} EndMatchAgree(s: string, t: string, alts: seq<string>)
    requires forall p | p in alts :: EndsWithCase(s, p, true) == EndsWithCase(t, p, false)
    ensures EndMatch(s, alts, true) == EndMatch(t, alts, false)
    decreases |alts|
  {
    if |alts| > 0 {
      assert alts[0] in alts;
      assert forall p | p in alts[1..] :: p in alts;
      EndMatchAgree(s, t, alts[1..]);
    }
  }

  lemma LowerPrefix(s: string, n: nat)
    requires n <= |s|
    ensures Lower(s[..n]) == Lower(s)[..n]
  {
  }

  lemma PyCutEndLower(s: string, alts: seq<string>)
    ensures Lower(PyCutEnd(s, alts, true)) == PyCutEnd(Lower(s), alts, false)
  {
    EndMatchLower(s, alts);
    var l := Lower(s);
    match EndMatch(s, alts, true)
    case Some(n) =>
      LowerPrefix(s, |s| - n);
    case None =>
      if |s| > 0 && s[|s| - 1] == '\n' {
        LowerPrefix(s, |s| - 1);
        EndMatchLower(s[..|s| - 1], alts);
        match EndMatch(s[..|s| - 1], alts, true)
        case Some(n) =>
          LowerPrefix(s, |s| - 1 - n);
          LowerConcat(s[..|s| - 1 - n], "\n");
        case None =>
      } else {
        assert |l| > 0 ==> l[|l| - 1] == LowerChar(s[|s| - 1]);
      }
  }

  lemma LowerConcat(a: string, b: string)
    ensures Lower(a + b) == Lower(a) + Lower(b)
  {
  }

  lemma {:induction false} KeepIgnoresUnderscores(s: string)
    ensures Keep(ReplaceChar(s, '_', ' '), IsLowerAlnum) == Keep(s, IsLowerAlnum)
    decreases |s|
  {
    if |s| > 0 {
      var t := ReplaceChar(s, '_', ' ');
      assert t[1..] == ReplaceChar(s[1..], '_', ' ');
      KeepIgnoresUnderscores(s[1..]);
    }
  }

  lemma LowerTitleCase(s: string)
    ensures Lower(TitleCase(s)) == Lower(s)
  {
  }

  /** Title-casing a title again changes nothing: word starts stay word
      starts, and they are already capitals. */
  lemma TitleCaseIdempotent(s: string)
    ensures TitleCase(TitleCase(s)) == TitleCase(s)
  {
    var t := TitleCase(s);
    forall k | 0 <= k < |s|
      ensures IsWordChar(t[k]) == IsWordChar(s[k])
    {
    }
    forall k | 0 <= k < |s|
      ensures WordStart(t, k) == WordStart(s, k)
    {
    }
  }

  lemma LowerReplace(s: string)
    ensures Lower(ReplaceChar(s, '_', ' ')) == ReplaceChar(Lower(s), '_', ' ')
  {
  }

  /** Corrected: a cover's key is the key of its own display title, so a
      link titled "Run Forest" is found for "Run_Forest_mpg.png". */
  lemma CoverKeyMatchesTitle(name: string)
    ensures CoverKey(name) == PyNorm(TitleFromFilename(name))
  {
    var base := PyBaseName(name);
    var b := ReplaceChar(base, '_', ' ');
    var low := Lower(TitleFromFilename(name));
    LowerTitleCase(b);
    LowerReplace(base);
    assert low == ReplaceChar(Lower(base), '_', ' ');
    // The title holds no underscore, so the `_mpg` cut of `norm` is idle.
    NoUnderscoreNoMpgCut(low);
    KeepIgnoresUnderscores(Lower(base));
    PyCutEndLower(name, ImageExtensions);
    PyCutEndLower(PyCutEnd(name, ImageExtensions, true), [MpgSuffix]);
  }

  /** Without an underscore there is no `_mpg` to cut. */
  lemma NoUnderscoreNoMpgCut(low: string)
    requires forall k :: 0 <= k < |low| ==> low[k] != '_'
    ensures PyCutEnd(low, [MpgSuffix], false) == low
  {
    if |low| >= |MpgSuffix| {
      assert low[|low| - |MpgSuffix|..][0] != '_';
    }
    if |low| > 0 && low[|low| - 1] == '\n' && |low| - 1 >= |MpgSuffix| {
      assert low[..|low| - 1][|low| - 1 - |MpgSuffix|..][0] != '_';
    }
    EndMatchSpec(low, [MpgSuffix], false);
    if |low| > 0 {
      EndMatchSpec(low[..|low| - 1], [MpgSuffix], false);
    }
  }

  /** Cutting an end match never adds a kept character. */
  lemma KeepCutEnd(s: string, alts: seq<string>)
    ensures |Keep(PyCutEnd(s, alts, false), IsLowerAlnum)| <= |Keep(s, IsLowerAlnum)|
  {
    match EndMatch(s, alts, false)
    case Some(n) =>
      assert s == s[..|s| - n] + s[|s| - n..];
      KeepConcat(s[..|s| - n], s[|s| - n..], IsLowerAlnum);
    case None =>
      if |s| > 0 && s[|s| - 1] == '\n' {
        match EndMatch(s[..|s| - 1], alts, false)
        case Some(n) =>
          var t := s[..|s| - 1 - n];
          assert s == t + s[|s| - 1 - n..];
          KeepConcat(t, s[|s| - 1 - n..], IsLowerAlnum);
          KeepConcat(t, "\n", IsLowerAlnum);
          assert Keep("\n", IsLowerAlnum) == "";
        case None =>
      }
  }

  /** As written, a `.png` cover's key is the key of its whole name with
      "png" still attached. */
  lemma AsWrittenCoverKeyShape(base: string)
    ensures AsWrittenCoverKey(base + ".png") == Keep(Lower(base), IsLowerAlnum) + "png"
  {
    var l := Lower(base);
    LowerConcat(base, ".png");
    assert Lower(".png") == ".png";
    var s := l + ".png";
    assert s[|s| - 4] == '.';
    assert EndMatch(s, [MpgSuffix], false).None?;
    assert PyCutEnd(s, [MpgSuffix], false) == s;
    KeepConcat(l, ".png", IsLowerAlnum);
    assert Keep(".png", IsLowerAlnum) == "png";
  }

  /** As written, no `.png` cover is ever found in the link map under its own
      title: its key is longer than the key of the title (which is
      `CoverKey`, by `CoverKeyMatchesTitle`). */
  lemma AsWrittenCoverKeyMisses(base: string)
    ensures |CoverKey(base + ".png")| < |AsWrittenCoverKey(base + ".png")|
  {
    AsWrittenCoverKeyShape(base);
    var l := Lower(base);
    LowerConcat(base, ".png");
    assert Lower(".png") == ".png";
    var s := l + ".png";
    assert EndsWith(s, ".png");
    assert EndMatch(s, ImageExtensions, false) == Some(4);
    assert s[..|s| - 4] == l;
    KeepCutEnd(l, [MpgSuffix]);
  }

  // ---------------------------------------------------------------------------
  // The publish date of a video page
  // ---------------------------------------------------------------------------

  const MetaPrefix := "<meta itemprop=\"datePublished\" content=\""
  const JsonPrefix := "\"publishDate\":\""

  /** The first `"` or "\n" at or after `i`, or `|s|`. */
  function QuoteOrNewline(s: string, i: nat): (q: nat)
    requires i <= |s|
    ensures i <= q <= |s|
    ensures q < |s| ==> s[q] == '"' || s[q] == '\n'
    ensures forall k :: i <= k < q ==> s[k] != '"' && s[k] != '\n'
    decreases |s| - i
  {
    if i == |s| || s[i] == '"' || s[i] == '\n' then i else QuoteOrNewline(s, i + 1)
  }

  /** A value `d` on one line between `pre` at `k` and a closing quote. */
  predicate QuotedAt(html: string, pre: string, k: int, d: string) {
    && OccursAt(html, pre + d + "\"", k)
    && forall n :: 0 <= n < |d| ==> d[n] != '"' && d[n] != '\n'
  }

  /** `pre` occurs at `k` and the first quote or newline after it is a
      quote. */
  predicate ClosedAt(html: string, pre: string, k: int) {
    && OccursAt(html, pre, k)
    && var q := QuoteOrNewline(html, k + |pre|);
       q < |html| && html[q] == '"'
  }

  /** The text between `pre` at `k` and the next quote or newline. */
  function ValueAt(html: string, pre: string, k: nat): string
    requires k + |pre| <= |html|
  {
    html[k + |pre|..QuoteOrNewline(html, k + |pre|)]
  }

  /** `re.search(pre + '(.*?)"', html)` from position `from`, giving group 1,
      where `.` matches anything but a newline: the regex engine tries each
      start position in turn. */
  function QuotedAfter(html: string, pre: string, from: nat): (r: Option<string>)
    ensures r.Some? ==> forall n :: 0 <= n < |r.value| ==> r.value[n] != '"' && r.value[n] != '\n'
    decreases |html| + 1 - from
  {
    if from + |pre| > |html| then None
    else if ClosedAt(html, pre, from) then Some(ValueAt(html, pre, from))
    else QuotedAfter(html, pre, from + 1)
  }

  /** The search from `from` stops at the first closed `pre` at or after
      `from`, and finds nothing when there is none. */
  lemma {:induction false} QuotedAfterSpec(html: string, pre: string, from: nat)
    ensures var r := QuotedAfter(html, pre, from);
            && (r.None? <==> forall k :: from <= k ==> !ClosedAt(html, pre, k))
            && (r.Some? ==> exists k: nat :: from <= k && k + |pre| <= |html| && ClosedAt(html, pre, k)
                                             && r.value == ValueAt(html, pre, k)
                                             && forall j :: from <= j < k ==> !ClosedAt(html, pre, j))
    decreases |html| + 1 - from
  {
    if from + |pre| <= |html| && !ClosedAt(html, pre, from) {
      QuotedAfterSpec(html, pre, from + 1);
      SkipClosed(html, pre, from);
      var r := QuotedAfter(html, pre, from + 1);
      if r.Some? {
        var k: nat :| from + 1 <= k && k + |pre| <= |html| && ClosedAt(html, pre, k)
                      && r.value == ValueAt(html, pre, k)
                      && forall j :: from + 1 <= j < k ==> !ClosedAt(html, pre, j);
        assert forall j :: from <= j < k ==> !ClosedAt(html, pre, j);
      }
    }
  }

  /** Skipping a position that is not closed loses no closed one. */
  lemma SkipClosed(html: string, pre: string, from: nat)
    requires !ClosedAt(html, pre, from)
    ensures (forall j :: from <= j ==> !ClosedAt(html, pre, j)) <==>
            (forall j :: from + 1 <= j ==> !ClosedAt(html, pre, j))
  {
  }

  /** The text between `pre` and the first quote, when no newline comes
      first, is a value. */
  lemma QuotedFound(html: string, pre: string, k: nat)
    requires ClosedAt(html, pre, k)
    ensures QuotedAt(html, pre, k, ValueAt(html, pre, k))
  {
    var q := QuoteOrNewline(html, k + |pre|);
    var d := html[k + |pre|..q];
    assert html[k..q + 1] == pre + d + "\"";
  }

  /** A value starts with `pre` and ends at the first quote or newline after
      it, which is a quote. */
  lemma QuotedEnds(html: string, pre: string, k: int, d: string)
    requires QuotedAt(html, pre, k, d)
    ensures k >= 0 && ClosedAt(html, pre, k) && d == ValueAt(html, pre, k)
  {
    var w := pre + d + "\"";
    assert html[k..k + |w|] == w;
    assert html[k..k + |pre|] == w[..|pre|] == pre;
    var start := k + |pre|;
    var e := start + |d|;
    assert html[e] == w[|w| - 1];
    forall n | start <= n < e
      ensures html[n] == d[n - start]
    {
      assert html[n] == w[n - k];
    }
    assert QuoteOrNewline(html, start) == e;
    assert html[start..e] == d;
  }

  /** `re.search(r'<meta itemprop="datePublished" content="(.*?)"', html)`,
      giving group 1. */
  function MetaDate(html: string): Option<string> {
    QuotedAfter(html, MetaPrefix, 0)
  }

  /** The meta date is found exactly when the page holds a
      `datePublished` meta tag with a one-line quoted value, and is the value
      of the leftmost such tag. */
  lemma MetaDateSpec(html: string)
    ensures MetaDate(html).Some? ==> exists k :: QuotedAt(html, MetaPrefix, k, MetaDate(html).value)
                                                 && forall j, d :: 0 <= j < k ==> !QuotedAt(html, MetaPrefix, j, d)
    ensures MetaDate(html).None? ==> forall k, d :: !QuotedAt(html, MetaPrefix, k, d)
  {
    QuotedAfterSpec(html, MetaPrefix, 0);
    var r := MetaDate(html);
    if r.None? {
      forall k, d
        ensures !QuotedAt(html, MetaPrefix, k, d)
      {
        if QuotedAt(html, MetaPrefix, k, d) {
          QuotedEnds(html, MetaPrefix, k, d);
        }
      }
    } else {
      var k: nat :| k + |MetaPrefix| <= |html| && ClosedAt(html, MetaPrefix, k)
                    && r.value == ValueAt(html, MetaPrefix, k)
                    && forall j :: 0 <= j < k ==> !ClosedAt(html, MetaPrefix, j);
      QuotedFound(html, MetaPrefix, k);
      forall j, d | 0 <= j < k
        ensures !QuotedAt(html, MetaPrefix, j, d)
      {
        if QuotedAt(html, MetaPrefix, j, d) {
          QuotedEnds(html, MetaPrefix, j, d);
        }
      }
    }
  }

  predicate IsoDateAt(s: string, i: nat) {
    && i + 10 <= |s|
    && (forall n :: i <= n < i + 4 ==> IsAsciiDigit(s[n]))
    && s[i + 4] == '-' && IsAsciiDigit(s[i + 5]) && IsAsciiDigit(s[i + 6])
    && s[i + 7] == '-' && IsAsciiDigit(s[i + 8]) && IsAsciiDigit(s[i + 9])
  }

  /** `"publishDate":"YYYY-MM-DD"` at `k`. */
  predicate JsonDateAt(html: string, k: int) {
    && OccursAt(html, JsonPrefix, k)
    && IsoDateAt(html, k + |JsonPrefix|)
    && k + |JsonPrefix| + 10 < |html| && html[k + |JsonPrefix| + 10] == '"'
  }

  /** `re.search(r'"publishDate":"(\d{4}-\d{2}-\d{2})"', html)` from `from`,
      giving group 1. */
  function JsonDate(html: string, from: nat): (r: Option<string>)
    ensures r.Some? ==> exists k :: from <= k && JsonDateAt(html, k)
                                    && r.value == html[k + |JsonPrefix|..k + |JsonPrefix| + 10]
                                    && forall j :: from <= j < k ==> !JsonDateAt(html, j)
    ensures r.Some? ==> |r.value| == 10 && IsoDateAt(r.value, 0)
    ensures r.None? <==> forall k :: from <= k ==> !JsonDateAt(html, k)
    decreases |html| + 1 - from
  {
    var k := Find(html, JsonPrefix, from);
    if k == -1 then None
    else if JsonDateAt(html, k) then
      var d := html[k + |JsonPrefix|..k + |JsonPrefix| + 10];
      assert forall n :: 0 <= n < 10 ==> d[n] == html[k + |JsonPrefix| + n];
      assert forall j :: from <= j < k ==> !JsonDateAt(html, j);
      Some(d)
    else
      var r := JsonDate(html, k + 1);
      assert forall j :: from <= j <= k ==> !JsonDateAt(html, j);
      r
  }

  /** A fetched page: its status code and text. */
  datatype Page = Page(status: int, text: string)

  /** `get_youtube_publish_date` given the outcome of the GET (`None` when it
      raised): pages with status 400 or more have no date; otherwise the meta
      value, even when empty, else the JSON date. */
  function PublishDate(page: Option<Page>): (r: Option<string>)
    ensures page.None? || page.value.status >= 400 ==> r.None?
    ensures page.Some? && page.value.status < 400 && MetaDate(page.value.text).Some? ==>
              r == MetaDate(page.value.text)
    ensures page.Some? && page.value.status < 400 && MetaDate(page.value.text).None? ==>
              r == JsonDate(page.value.text, 0)
  {
    match page
    case None => None
    case Some(p) =>
      if p.status >= 400 then None
      else
        match MetaDate(p.text)
        case Some(d) => Some(d)
        case None => JsonDate(p.text, 0)
  }

  // ---------------------------------------------------------------------------
  // The title-to-link map
  // ---------------------------------------------------------------------------

  /** A JSON value as far as the scripts look at it: a missing key, null, or
      a string. */
  datatype Json = Absent | Null | Str(s: string)

  /** Python truthiness of such a value. */
  predicate Truthy(v: Json) { v.Str? && v.s != "" }

  /** `d.get(key, default)`. */
  function GetOr(v: Json, default: Json): Json {
    if v.Absent? then default else v
  }

  /** One entry of the links file's `links` list. */
  datatype LinkEntry = LinkEntry(title: Json, url: Json, finalUrl: Json)

  /** `entry.get("final_url", entry.get("url"))`: the final URL whenever that
      key is present, even as null. */
  function EntryUrl(e: LinkEntry): Json {
    GetOr(e.finalUrl, GetOr(e.url, Null))
  }

  /** The string of a value, or "" for anything else. */
  function StrOr(v: Json): string {
    if v.Str? then v.s else ""
  }

  /** A map from keys to URLs built by one pass over the entries: each usable
      entry sets its key, so a later entry overwrites an earlier one. */
  function KeyedMap(entries: seq<LinkEntry>, usable: LinkEntry -> bool,
                    key: LinkEntry -> string, url: LinkEntry -> string): (m: map<string, string>)
    ensures (forall e :: usable(e) ==> url(e) != "") ==> forall k :: k in m ==> m[k] != ""
  {
    if |entries| == 0 then map[]
    else
      var e := entries[|entries| - 1];
      var m := KeyedMap(entries[..|entries| - 1], usable, key, url);
      if usable(e) then m[key(e) := url(e)] else m
  }

  /** A key is in the map exactly when a usable entry has that key. */
  lemma {:induction false} KeyedMapKeys(entries: seq<LinkEntry>, usable: LinkEntry -> bool,
                                        key: LinkEntry -> string, url: LinkEntry -> string, k: string)
    ensures k in KeyedMap(entries, usable, key, url) <==>
              exists i :: 0 <= i < |entries| && usable(entries[i]) && key(entries[i]) == k
    decreases |entries|
  {
    if |entries| > 0 {
      var n := |entries| - 1;
      var init := entries[..n];
      KeyedMapKeys(init, usable, key, url, k);
      assert forall i :: 0 <= i < n ==> entries[i] == init[i];
      if k in KeyedMap(init, usable, key, url) && !(usable(entries[n]) && key(entries[n]) == k) {
        var i :| 0 <= i < n && usable(init[i]) && key(init[i]) == k;
        assert usable(entries[i]) && key(entries[i]) == k;
      }
    }
  }

  /** The URL of a key is that of the last usable entry with that key. */
  lemma {:induction false} KeyedMapLast(entries: seq<LinkEntry>, usable: LinkEntry -> bool,
                                        key: LinkEntry -> string, url: LinkEntry -> string, i: nat)
    requires i < |entries| && usable(entries[i])
    requires forall j :: i < j < |entries| && usable(entries[j]) ==> key(entries[j]) != key(entries[i])
    ensures key(entries[i]) in KeyedMap(entries, usable, key, url)
    ensures KeyedMap(entries, usable, key, url)[key(entries[i])] == url(entries[i])
    decreases |entries|
  {
    var n := |entries| - 1;
    if i < n {
      var init := entries[..n];
      assert init[i] == entries[i];
      assert forall j :: i < j < n ==> init[j] == entries[j];
      KeyedMapLast(init, usable, key, url, i);
    }
  }

  /** `if t and u` with `t = entry.get("title", "")`. */
  predicate Usable(e: LinkEntry) {
    Truthy(GetOr(e.title, Str(""))) && Truthy(EntryUrl(e))
  }

  function TitleKey(e: LinkEntry): string { PyNorm(StrOr(e.title)) }

  function UrlOf(e: LinkEntry): string { StrOr(EntryUrl(e)) }

  /** The loop of `build` filling `link_map`. */
  function LinkMap(entries: seq<LinkEntry>): (m: map<string, string>)
    ensures forall key :: key in m ==> m[key] != ""
  {
    KeyedMap(entries, Usable, TitleKey, UrlOf)
  }

  /** A key is in the map exactly when an entry with a non-empty title and
      URL has that key; its URL is that of the last such entry, taken from
      `final_url` whenever that key is present. */
  lemma LinkMapSpec(entries: seq<LinkEntry>, key: string, i: nat)
    requires i < |entries| && Usable(entries[i]) && TitleKey(entries[i]) == key
    requires forall j :: i < j < |entries| && Usable(entries[j]) ==> TitleKey(entries[j]) != key
    ensures key in LinkMap(entries) && LinkMap(entries)[key] == UrlOf(entries[i])
    ensures entries[i].finalUrl != Absent ==> LinkMap(entries)[key] == entries[i].finalUrl.s
  {
    KeyedMapLast(entries, Usable, TitleKey, UrlOf, i);
  }

  lemma LinkMapKeys(entries: seq<LinkEntry>, key: string)
    ensures key in LinkMap(entries) <==>
              exists i :: 0 <= i < |entries| && Usable(entries[i]) && TitleKey(entries[i]) == key
  {
    KeyedMapKeys(entries, Usable, TitleKey, UrlOf, key);
  }

  // ---------------------------------------------------------------------------
  // Tracks
  // ---------------------------------------------------------------------------

  /** One entry of the covers directory. */
  datatype DirEntry = DirEntry(name: string, isFile: bool)

  /** pathlib's `suffix`: from the last dot, when that dot is neither the
      first nor the last character. */
  function PathSuffix(name: string): (r: string)
    ensures r == "" || (r[0] == '.' && EndsWith(name, r) && |r| >= 2 && |r| < |name|)
  {
    var i := LastDot(name, |name|);
    if 0 < i < |name| - 1 then name[i..] else ""
  }

  /** A suffix is a dot-led ending of the name that starts at its last dot,
      and there is one exactly when that dot is neither the first nor the
      last character. */
  lemma PathSuffixSpec(name: string)
    ensures var r := PathSuffix(name);
            && (r == "" || (r[0] == '.' && EndsWith(name, r) && |r| >= 2 && |r| < |name|))
            && (r != "" ==> forall k :: |name| - |r| < k < |name| ==> name[k] != '.')
            && (r != "" <==> exists k :: 0 < k < |name| - 1 && name[k] == '.'
                                         && forall j :: k < j < |name| ==> name[j] != '.')
  {
  }

  /** `name.rfind(".", 0, end)`. */
  function LastDot(name: string, end: nat): (i: int)
    requires end <= |name|
    ensures -1 <= i < end
    ensures i >= 0 ==> name[i] == '.'
    ensures forall k :: i < k < end ==> name[k] != '.'
  {
    if end == 0 then -1 else if name[end - 1] == '.' then end - 1 else LastDot(name, end - 1)
  }

  predicate IsImageSuffix(s: string) {
    Lower(s) in ImageExtensions
  }

  /** The filter of `build`'s loop. */
  predicate IsCoverFile(e: DirEntry) {
    e.isFile && IsImageSuffix(PathSuffix(e.name)) && !StartsWith(e.name, "_")
  }

  /** Python's `sorted` over the paths of one Windows directory: by name,
      ignoring case. */
  function SortedListing(entries: seq<DirEntry>): seq<DirEntry> {
    SortBy(entries, (e: DirEntry) => Lower(e.name), StrLe)
  }

  datatype Track = Track(title: string, cover: string, releaseDate: Option<string>,
                         youtube: Option<string>, spotify: string, apple: string)

  /** A fetcher: the outcome of a GET for each URL (`None` when it raised). */
  type Fetcher = string -> Option<Page>

  /** The track made for one cover file when covers are looked up in the
      link map under `keyOf(name)`. */
  function TrackWith(name: string, keyOf: string -> string, links: map<string, string>, fetch: Fetcher): (t: Track)
    ensures t.title == TitleFromFilename(name) && t.cover == CoversPrefix + name
    ensures t.youtube.Some? <==> keyOf(name) in links
    ensures t.youtube.Some? ==> t.youtube.value == links[keyOf(name)]
    ensures t.releaseDate == if t.youtube.Some? && t.youtube.value != "" then PublishDate(fetch(t.youtube.value)) else None
    ensures t.spotify == SpotifySearch + Quote(ArtistName + " " + t.title)
    ensures t.apple == AppleSearch + Quote(ArtistName + " " + t.title)
  {
    var title := TitleFromFilename(name);
    var key := keyOf(name);
    var yt := if key in links then Some(links[key]) else None;
    var date := if yt.Some? && yt.value != "" then PublishDate(fetch(yt.value)) else None;
    var term := Quote(ArtistName + " " + title);
    Track(title, CoversPrefix + name, date, yt, SpotifySearch + term, AppleSearch + term)
  }

  /** The track `build` makes for one cover file, as written: the lookup key
      is `norm` of the whole file name. */
  function MakeTrack(name: string, links: map<string, string>, fetch: Fetcher): (t: Track)
    ensures t.title == TitleFromFilename(name) && t.cover == CoversPrefix + name
    ensures t.youtube.Some? <==> PyNorm(name) in links
    ensures t.youtube.Some? ==> t.youtube.value == links[PyNorm(name)]
    ensures t.releaseDate == if t.youtube.Some? && t.youtube.value != "" then PublishDate(fetch(t.youtube.value)) else None
    ensures t.spotify == SpotifySearch + Quote(ArtistName + " " + t.title)
    ensures t.apple == AppleSearch + Quote(ArtistName + " " + t.title)
  {
    TrackWith(name, AsWrittenCoverKey, links, fetch)
  }

  /** The corrected track: the lookup key drops the image extension first. */
  function MakeTrackFixed(name: string, links: map<string, string>, fetch: Fetcher): (t: Track)
    ensures t.title == TitleFromFilename(name) && t.cover == CoversPrefix + name
    ensures t.youtube.Some? <==> CoverKey(name) in links
    ensures t.youtube.Some? ==> t.youtube.value == links[CoverKey(name)]
    ensures t.releaseDate == if t.youtube.Some? && t.youtube.value != "" then PublishDate(fetch(t.youtube.value)) else None
    ensures t.spotify == SpotifySearch + Quote(ArtistName + " " + t.title)
    ensures t.apple == AppleSearch + Quote(ArtistName + " " + t.title)
  {
    TrackWith(name, CoverKey, links, fetch)
  }

  /** Under either lookup key, the query of both search links decodes back
      to the UTF-8 bytes of the artist name, a space and the track's title. */
  lemma SearchTermsDecode(name: string, keyOf: string -> string, links: map<string, string>, fetch: Fetcher)
    ensures var t := TrackWith(name, keyOf, links, fetch);
            && StartsWith(t.spotify, SpotifySearch) && StartsWith(t.apple, AppleSearch)
            && Unquote(t.spotify[|SpotifySearch|..]) == Utf8String(ArtistName + " " + t.title)
            && Unquote(t.apple[|AppleSearch|..]) == Utf8String(ArtistName + " " + t.title)
  {
    var t := TrackWith(name, keyOf, links, fetch);
    var term := Quote(ArtistName + " " + t.title);
    QuoteRoundTrip(ArtistName + " " + t.title);
    assert t.spotify[|SpotifySearch|..] == term;
    assert t.apple[|AppleSearch|..] == term;
  }

  /** Corrected, a track gets a YouTube link exactly when the link map has
      one under the key of its own display title. */
  lemma FixedTrackLinksByTitle(name: string, links: map<string, string>, fetch: Fetcher)
    ensures MakeTrackFixed(name, links, fetch).youtube.Some? <==> PyNorm(MakeTrackFixed(name, links, fetch).title) in links
  {
    CoverKeyMatchesTitle(name);
  }

  /** The links file of the counterexample: one entry titled "A". */
  const OneLink := [LinkEntry(Str("A"), Absent, Str("https://y"))]

  lemma OneLinkMap()
    ensures LinkMap(OneLink) == map["a" := "https://y"]
  {
    NormOfTitle();
    assert OneLink[..0] == [];
  }

  /** As written, the cover "a.png" gets no YouTube link (and so no date)
      from a link titled "A", its own display title. */
  lemma AsWrittenTrackLosesLink(fetch: Fetcher)
    ensures MakeTrack("a.png", LinkMap(OneLink), fetch).youtube.None?
  {
    OneLinkMap();
    NormOfFileName();
  }

  /** Corrected, the same cover gets that link. */
  lemma FixedTrackFindsLink(fetch: Fetcher)
    ensures MakeTrackFixed("a.png", LinkMap(OneLink), fetch).youtube == Some("https://y")
  {
    OneLinkMap();
    CoverKeyMatchesTitle("a.png");
    TitleOfFileName();
    NormOfTitle();
  }

  /** The sort key `(date is None, date or "9999-12-31")`. */
  datatype SortKey = SortKey(undated: bool, date: string)

  function TrackKey(t: Track): SortKey {
    SortKey(t.releaseDate.None?,
            if t.releaseDate.None? || t.releaseDate.value == "" then UndatedKey else t.releaseDate.value)
  }

  /** Python's tuple order on sort keys (`False < True`). */
  predicate KeyLe(a: SortKey, b: SortKey) {
    (!a.undated && b.undated) || (a.undated == b.undated && StrLe(a.date, b.date))
  }

  lemma KeyLeIsTotalPreorder()
    ensures TotalPreorder(KeyLe)
  {
    StrLeIsTotalPreorder();
  }

  /** The tracks in listing order, before the sort. */
  function UnsortedTracks(listing: seq<DirEntry>, keyOf: string -> string, links: map<string, string>,
                          fetch: Fetcher): (ts: seq<Track>)
    ensures |ts| <= |listing|
  {
    if |listing| == 0 then []
    else
      var e := listing[|listing| - 1];
      UnsortedTracks(listing[..|listing| - 1], keyOf, links, fetch)
        + (if IsCoverFile(e) then [TrackWith(e.name, keyOf, links, fetch)] else [])
  }

  /** The tracks of the sorted listing's cover files, sorted by release date
      with undated tracks last, for covers looked up under `keyOf`. */
  function BuildWith(listing: seq<DirEntry>, keyOf: string -> string, entries: seq<LinkEntry>,
                     fetch: Fetcher): (ts: seq<Track>)
    ensures var unsorted := UnsortedTracks(SortedListing(listing), keyOf, LinkMap(entries), fetch);
            && |ts| == |unsorted| && multiset(ts) == multiset(unsorted)
  {
    var unsorted := UnsortedTracks(SortedListing(listing), keyOf, LinkMap(entries), fetch);
    SortByPermutes(unsorted, TrackKey, KeyLe);
    SortBy(unsorted, TrackKey, KeyLe)
  }

  /** `build` as written. */
  function Build(listing: seq<DirEntry>, entries: seq<LinkEntry>, fetch: Fetcher): (ts: seq<Track>)
    ensures var unsorted := UnsortedTracks(SortedListing(listing), AsWrittenCoverKey, LinkMap(entries), fetch);
            && |ts| == |unsorted| && multiset(ts) == multiset(unsorted)
  {
    BuildWith(listing, AsWrittenCoverKey, entries, fetch)
  }

  /** `build` with the corrected cover key. */
  function BuildFixed(listing: seq<DirEntry>, entries: seq<LinkEntry>, fetch: Fetcher): (ts: seq<Track>)
    ensures var unsorted := UnsortedTracks(SortedListing(listing), CoverKey, LinkMap(entries), fetch);
            && |ts| == |unsorted| && multiset(ts) == multiset(unsorted)
  {
    BuildWith(listing, CoverKey, entries, fetch)
  }

  /** Exactly one track per cover file of the listing. */
  lemma {:induction false} UnsortedTracksCount(listing: seq<DirEntry>, keyOf: string -> string,
                                               links: map<string, string>, fetch: Fetcher)
    ensures |UnsortedTracks(listing, keyOf, links, fetch)| == |CoverFiles(listing)|
    ensures forall n :: 0 <= n < |CoverFiles(listing)| ==>
              UnsortedTracks(listing, keyOf, links, fetch)[n] == TrackWith(CoverFiles(listing)[n].name, keyOf, links, fetch)
    decreases |listing|
  {
    if |listing| > 0 {
      UnsortedTracksCount(listing[..|listing| - 1], keyOf, links, fetch);
    }
  }

  /** The cover files of a listing, in order. */
  function CoverFiles(listing: seq<DirEntry>): (cs: seq<DirEntry>)
    ensures forall n :: 0 <= n < |cs| ==> IsCoverFile(cs[n]) && cs[n] in listing
  {
    if |listing| == 0 then []
    else
      var e := listing[|listing| - 1];
      CoverFiles(listing[..|listing| - 1]) + (if IsCoverFile(e) then [e] else [])
  }

  /** Every cover file of the listing is kept, and nothing else is. */
  lemma {:induction false} CoverFilesSpec(listing: seq<DirEntry>)
    ensures forall e :: e in CoverFiles(listing) <==> e in listing && IsCoverFile(e)
    decreases |listing|
  {
    if |listing| > 0 {
      var init := listing[..|listing| - 1];
      CoverFilesSpec(init);
      assert listing == init + [listing[|listing| - 1]];
    }
  }

  /** After the sort every dated track precedes every undated one, dated
      tracks are in ascending date order, and tracks with equal keys keep
      their listing order. */
  lemma BuildOrder(listing: seq<DirEntry>, keyOf: string -> string, entries: seq<LinkEntry>, fetch: Fetcher, k: SortKey)
    ensures var ts := BuildWith(listing, keyOf, entries, fetch);
            && (forall i, j :: 0 <= i < j < |ts| && ts[i].releaseDate.None? ==> ts[j].releaseDate.None?)
            && (forall i, j :: 0 <= i < j < |ts| && ts[j].releaseDate.Some? ==>
                  StrLe(TrackKey(ts[i]).date, TrackKey(ts[j]).date))
            && Class(ts, TrackKey, KeyLe, k)
               == Class(UnsortedTracks(SortedListing(listing), keyOf, LinkMap(entries), fetch), TrackKey, KeyLe, k)
  {
    var unsorted := UnsortedTracks(SortedListing(listing), keyOf, LinkMap(entries), fetch);
    KeyLeIsTotalPreorder();
    SortBySorted(unsorted, TrackKey, KeyLe);
    SortByStable(unsorted, TrackKey, KeyLe, k);
  }

  /** Sorting the built list again changes nothing. */
  lemma BuildSortIdempotent(listing: seq<DirEntry>, keyOf: string -> string, entries: seq<LinkEntry>, fetch: Fetcher)
    ensures SortBy(BuildWith(listing, keyOf, entries, fetch), TrackKey, KeyLe) == BuildWith(listing, keyOf, entries, fetch)
  {
    KeyLeIsTotalPreorder();
    SortByIdempotent(UnsortedTracks(SortedListing(listing), keyOf, LinkMap(entries), fetch), TrackKey, KeyLe);
  }
}
