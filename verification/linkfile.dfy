/** What the link verifier reads back from the file it has just rewritten.
    The rewrite lays each entry out as title, final URL, status line; the
    scanner reads a URL line and takes the next non-empty line as its title.
    The two orders disagree, so a second run pairs every URL with its status
    line.  `FixedEntryLines` writes the URL before the title, and with it the
    rewritten file reads back as the entries' own titles and URLs. */
module LinkFile {
  import opened Wrappers
  import opened Text
  import opened LinkVerifier

  /** A record whose fields survive being written as lines: a non-empty,
      stripped, single-line title and a stripped single-line final URL that
      starts with "http" (what a successful or failed check of a scanned URL
      records). */
  predicate Writable(r: LinkRecord) {
    && r.title != "" && Strip(r.title) == r.title && NoLineBoundary(r.title)
    && StartsWith(r.finalUrl, UrlScheme) && Strip(r.finalUrl) == r.finalUrl
    && NoLineBoundary(r.finalUrl)
  }

  /** The three lines in the order the scanner expects: URL, title, status. */
  function FixedEntryLines(r: LinkRecord): seq<string> {
    [r.finalUrl, r.title, StatusLine(r)]
  }

  function Layouts(rs: seq<LinkRecord>, layout: LinkRecord -> seq<string>): seq<seq<string>> {
    seq(|rs|, n requires 0 <= n < |rs| => layout(rs[n]))
  }

  // ---------------------------------------------------------------------------
  // From the written text back to its lines
  // ---------------------------------------------------------------------------

  /** Joining terminated blocks with "\n" writes the blocks separated by one
      empty line. */
  lemma {:induction false} JoinTerminatedBlocks(bs: seq<seq<string>>)
    ensures Join(seq(|bs|, n requires 0 <= n < |bs| => Terminated(bs[n])), "\n")
            == Terminated(Blocks(bs))
    decreases |bs|
  {
    var ts := seq(|bs|, n requires 0 <= n < |bs| => Terminated(bs[n]));
    if |bs| > 1 {
      var rest := seq(|bs| - 1, n requires 0 <= n < |bs| - 1 => Terminated(bs[1..][n]));
      assert ts[1..] == rest;
      JoinTerminatedBlocks(bs[1..]);
      TerminatedConcat(bs[0] + [""], Blocks(bs[1..]));
      TerminatedConcat(bs[0], [""]);
      assert Terminated([""]) == "\n";
    }
  }

  /** With three lines per block, the blocks sit four lines apart. */
  lemma {:induction false} BlocksLayout(bs: seq<seq<string>>)
    requires |bs| > 0
    requires forall n :: 0 <= n < |bs| ==> |bs[n]| == 3
    ensures |Blocks(bs)| == 4 * |bs| - 1
    ensures forall n, j :: 0 <= n < |bs| && 0 <= j < 3 ==> Blocks(bs)[4 * n + j] == bs[n][j]
    ensures forall n :: 0 <= n < |bs| - 1 ==> Blocks(bs)[4 * n + 3] == ""
    decreases |bs|
  {
    if |bs| > 1 {
      var tail := Blocks(bs[1..]);
      BlocksLayout(bs[1..]);
      assert Blocks(bs) == bs[0] + [""] + tail;
      forall n, j | 0 <= n < |bs| && 0 <= j < 3
        ensures Blocks(bs)[4 * n + j] == bs[n][j]
      {
        if n > 0 {
          assert Blocks(bs)[4 * n + j] == tail[4 * (n - 1) + j];
          assert bs[n] == bs[1..][n - 1];
        }
      }
      forall n | 0 <= n < |bs| - 1
        ensures Blocks(bs)[4 * n + 3] == ""
      {
        if n > 0 {
          assert Blocks(bs)[4 * n + 3] == tail[4 * (n - 1) + 3];
        }
      }
    }
  }

  /** A line that is its own `strip()` and holds no line boundary. */
  predicate CleanLine(l: string) {
    Strip(l) == l && NoLineBoundary(l)
  }

  /** Text written from clean lines, whose first and last lines are not
      empty, is read back by the scanner as exactly those lines. */
  lemma ReadBack(ls: seq<string>)
    requires |ls| > 0 && ls[0] != "" && ls[|ls| - 1] != ""
    requires forall n :: 0 <= n < |ls| ==> CleanLine(ls[n])
    ensures StrippedLines(Strip(Terminated(ls)) + "\n") == ls
  {
    var t := Terminated(ls);
    StripTerminated(ls);
    forall n | 0 <= n < |ls|
      ensures NoLineBoundary(ls[n])
    {
      assert CleanLine(ls[n]);
    }
    SplitTerminated(ls);
    StrippedCleanLines(t, ls);
  }

  /** The written text has no surrounding whitespace but its final "\n". */
  lemma StripTerminated(ls: seq<string>)
    requires |ls| > 0 && ls[0] != "" && ls[|ls| - 1] != ""
    requires CleanLine(ls[0]) && CleanLine(ls[|ls| - 1])
    ensures Strip(Terminated(ls)) + "\n" == Terminated(ls)
  {
    CleanEnds(ls[0]);
    CleanEnds(ls[|ls| - 1]);
    TerminatedEnds(ls);
    StripNewlineEnded(Terminated(ls));
  }

  lemma CleanEnds(l: string)
    requires CleanLine(l) && l != ""
    ensures !IsSpace(l[0]) && !IsSpace(l[|l| - 1])
  {
  }

  lemma StrippedCleanLines(text: string, ls: seq<string>)
    requires SplitLines(text) == ls
    requires forall n :: 0 <= n < |ls| ==> CleanLine(ls[n])
    ensures StrippedLines(text) == ls
  {
    var r := StrippedLines(text);
    forall n | 0 <= n < |ls|
      ensures r[n] == ls[n]
    {
      StripEachAt(ls, n);
      assert CleanLine(ls[n]);
    }
  }

  /** The written text is the blocks' lines, each terminated. */
  lemma RenderedText(rs: seq<LinkRecord>, layout: LinkRecord -> seq<string>)
    ensures RenderLinksFile(rs, layout) == Strip(Terminated(Blocks(Layouts(rs, layout)))) + "\n"
  {
    var bs := Layouts(rs, layout);
    JoinTerminatedBlocks(bs);
    assert seq(|bs|, n requires 0 <= n < |bs| => Terminated(bs[n]))
        == seq(|rs|, n requires 0 <= n < |rs| => Terminated(layout(rs[n])));
  }

  /** The written file's lines, for records whose lines are all clean. */
  lemma WrittenLines(rs: seq<LinkRecord>, layout: LinkRecord -> seq<string>)
    requires |rs| > 0
    requires forall n :: 0 <= n < |rs| ==> |layout(rs[n])| == 3
    requires forall n, j :: 0 <= n < |rs| && 0 <= j < 3 ==> CleanLine(layout(rs[n])[j])
    requires layout(rs[0])[0] != "" && layout(rs[|rs| - 1])[2] != ""
    ensures StrippedLines(RenderLinksFile(rs, layout)) == Blocks(Layouts(rs, layout))
  {
    var bs := Layouts(rs, layout);
    assert forall n :: 0 <= n < |bs| ==> bs[n] == layout(rs[n]);
    BlocksLayout(bs);
    BlocksClean(bs);
    var ls := Blocks(bs);
    assert ls[0] == bs[0][0];
    assert ls[|ls| - 1] == bs[|rs| - 1][2];
    ReadBack(ls);
    RenderedText(rs, layout);
  }

  lemma BlocksClean(bs: seq<seq<string>>)
    requires |bs| > 0
    requires forall n :: 0 <= n < |bs| ==> |bs[n]| == 3
    requires forall n, j :: 0 <= n < |bs| && 0 <= j < 3 ==> CleanLine(bs[n][j])
    ensures forall m :: 0 <= m < |Blocks(bs)| ==> CleanLine(Blocks(bs)[m])
  {
    var ls := Blocks(bs);
    BlocksLayout(bs);
    forall m | 0 <= m < |ls|
      ensures CleanLine(ls[m])
    {
      var n := m / 4;
      if m % 4 < 3 {
        assert ls[4 * n + m % 4] == bs[n][m % 4];
      } else {
        assert ls[4 * n + 3] == "";
        assert Strip("") == "";
      }
    }
  }

  /** Every line of a status line block is clean, and it is never a URL. */
  lemma StatusLineClean(r: LinkRecord)
    ensures CleanLine(StatusLine(r)) && StatusLine(r) != ""
    ensures !StartsWith(StatusLine(r), UrlScheme)
  {
    StatusLineShape(r);
  }

  // ---------------------------------------------------------------------------
  // Scanning the rewritten file
  // ---------------------------------------------------------------------------

  /** The shape of the file as `main` writes it: block `n` holds the title
      (not a URL), the URL, and the non-empty status line, which is no URL. */
  ghost predicate TitleFirstShape(ls: seq<string>, k: nat) {
    && k > 0 && |ls| == 4 * k - 1
    && (forall n :: 0 <= n < k ==> TitleFirstBlock(ls, n))
    && (forall n :: 0 <= n < k - 1 ==> Separated(ls, n))
  }

  /** Block `n` reads title, URL, status. */
  predicate TitleFirstBlock(ls: seq<string>, n: nat) {
    && 4 * n + 2 < |ls|
    && !StartsWith(ls[4 * n], UrlScheme)
    && StartsWith(ls[4 * n + 1], UrlScheme)
    && ls[4 * n + 2] != ""
  }

  /** An empty line follows block `n`. */
  predicate Separated(ls: seq<string>, n: nat) {
    4 * n + 3 < |ls| && ls[4 * n + 3] == ""
  }

  /** The hits of blocks `n` to `k - 1` when each holds one URL at offset
      `u` titled by the line at offset `t`. */
  function BlockHits(n: nat, k: nat, u: nat, t: nat): (hs: seq<Hit>)
    ensures |hs| == if n < k then k - n else 0
    decreases k - n
  {
    if n < k then [Hit(4 * n + u, Some(4 * n + t))] + BlockHits(n + 1, k, u, t) else []
  }

  lemma {:induction false} BlockHitsAt(n: nat, k: nat, u: nat, t: nat, m: nat)
    requires n + m < k
    ensures BlockHits(n, k, u, t)[m] == Hit(4 * (n + m) + u, Some(4 * (n + m) + t))
    decreases m
  {
    if m > 0 {
      BlockHitsAt(n + 1, k, u, t, m - 1);
      assert n + 1 + (m - 1) == n + m;
    }
  }

  /** One title-first block: the title line is skipped and the URL takes
      the line below it. */
  lemma ScanBlockTitleFirst(ls: seq<string>, i: nat)
    requires i + 2 < |ls| && !StartsWith(ls[i], UrlScheme) && StartsWith(ls[i + 1], UrlScheme)
    requires ls[i + 2] != ""
    ensures Scan(ls, i) == [Hit(i + 1, Some(i + 2))] + Scan(ls, i + 3)
  {
    ScanSkips(ls, i);
    ScanTakesTitle(ls, i + 1, i + 2);
  }

  /** From block `n` on, the scanner takes each URL with the status line
      below it as title. */
  lemma {:induction false} ScanTitleFirst(ls: seq<string>, k: nat, n: nat)
    requires TitleFirstShape(ls, k) && n < k
    ensures Scan(ls, 4 * n) == BlockHits(n, k, 1, 2)
    decreases k - n
  {
    var i := 4 * n;
    assert TitleFirstBlock(ls, n);
    ScanBlockTitleFirst(ls, i);
    if n + 1 < k {
      assert Separated(ls, n);
      ScanSkips(ls, i + 3);
      assert i + 3 + 1 == 4 * (n + 1);
      ScanTitleFirst(ls, k, n + 1);
      assert Scan(ls, i + 3) == BlockHits(n + 1, k, 1, 2);
    } else {
      assert i + 3 == |ls|;
      assert Scan(ls, i + 3) == [] == BlockHits(n + 1, k, 1, 2);
    }
    assert BlockHits(n, k, 1, 2) == [Hit(i + 1, Some(i + 2))] + BlockHits(n + 1, k, 1, 2);
  }

  /** The whole scan of a title-first text. */
  lemma ScanAllTitleFirst(ls: seq<string>, k: nat)
    requires TitleFirstShape(ls, k)
    ensures |Scan(ls, 0)| == k
    ensures forall m :: 0 <= m < k ==> Scan(ls, 0)[m] == Hit(4 * m + 1, Some(4 * m + 2))
  {
    ScanTitleFirst(ls, k, 0);
    assert Scan(ls, 0) == Scan(ls, 4 * 0);
    forall m | 0 <= m < k
      ensures Scan(ls, 0)[m] == Hit(4 * m + 1, Some(4 * m + 2))
    {
      BlockHitsAt(0, k, 1, 2, m);
    }
  }

  /** The shape of the file written with `FixedEntryLines`: block `n` holds
      the URL, the non-empty title, and the status line, which is no URL. */
  ghost predicate UrlFirstShape(ls: seq<string>, k: nat) {
    && k > 0 && |ls| == 4 * k - 1
    && (forall n :: 0 <= n < k ==> UrlFirstBlock(ls, n))
    && (forall n :: 0 <= n < k - 1 ==> Separated(ls, n))
  }

  /** Block `n` reads URL, title, status. */
  predicate UrlFirstBlock(ls: seq<string>, n: nat) {
    && 4 * n + 2 < |ls|
    && StartsWith(ls[4 * n], UrlScheme)
    && ls[4 * n + 1] != ""
    && !StartsWith(ls[4 * n + 2], UrlScheme)
  }

  /** One URL-first block: the URL takes the line below it and the status
      line is skipped. */
  lemma ScanBlockUrlFirst(ls: seq<string>, i: nat)
    requires i + 2 < |ls| && StartsWith(ls[i], UrlScheme) && ls[i + 1] != ""
    requires !StartsWith(ls[i + 2], UrlScheme)
    ensures Scan(ls, i) == [Hit(i, Some(i + 1))] + Scan(ls, i + 3)
  {
    ScanTakesTitle(ls, i, i + 1);
    ScanSkips(ls, i + 2);
  }

  /** From block `n` on, the scanner takes each URL with the title below it. */
  lemma {:induction false} ScanUrlFirst(ls: seq<string>, k: nat, n: nat)
    requires UrlFirstShape(ls, k) && n < k
    ensures Scan(ls, 4 * n) == BlockHits(n, k, 0, 1)
    decreases k - n
  {
    var i := 4 * n;
    assert UrlFirstBlock(ls, n);
    ScanBlockUrlFirst(ls, i);
    if n + 1 < k {
      assert Separated(ls, n);
      ScanSkips(ls, i + 3);
      assert i + 3 + 1 == 4 * (n + 1);
      ScanUrlFirst(ls, k, n + 1);
      assert Scan(ls, i + 3) == BlockHits(n + 1, k, 0, 1);
    } else {
      assert i + 3 == |ls|;
      assert Scan(ls, i + 3) == [] == BlockHits(n + 1, k, 0, 1);
    }
    assert BlockHits(n, k, 0, 1) == [Hit(i, Some(i + 1))] + BlockHits(n + 1, k, 0, 1);
  }

  /** The whole scan of a URL-first text. */
  lemma ScanAllUrlFirst(ls: seq<string>, k: nat)
    requires UrlFirstShape(ls, k)
    ensures |Scan(ls, 0)| == k
    ensures forall m :: 0 <= m < k ==> Scan(ls, 0)[m] == Hit(4 * m, Some(4 * m + 1))
  {
    ScanUrlFirst(ls, k, 0);
    assert Scan(ls, 0) == Scan(ls, 4 * 0);
    forall m | 0 <= m < k
      ensures Scan(ls, 0)[m] == Hit(4 * m, Some(4 * m + 1))
    {
      BlockHitsAt(0, k, 0, 1, m);
    }
  }

  // ---------------------------------------------------------------------------
  // Reading the rewritten file back
  // ---------------------------------------------------------------------------

  /** The three lines of an entry are clean. */
  lemma RecordLinesClean(r: LinkRecord)
    requires Writable(r)
    ensures CleanLine(r.title) && CleanLine(r.finalUrl) && CleanLine(StatusLine(r))
    ensures StatusLine(r) != ""
  {
    StatusLineClean(r);
  }

  /** The lines of every entry are clean, whichever order they are in. */
  lemma EntryLinesClean(rs: seq<LinkRecord>)
    requires forall n :: 0 <= n < |rs| ==> Writable(rs[n])
    ensures forall n, j :: 0 <= n < |rs| && 0 <= j < 3 ==>
              CleanLine(EntryLines(rs[n])[j]) && CleanLine(FixedEntryLines(rs[n])[j])
    ensures forall n :: 0 <= n < |rs| ==> StatusLine(rs[n]) != ""
  {
    forall n, j | 0 <= n < |rs| && 0 <= j < 3
      ensures CleanLine(EntryLines(rs[n])[j]) && CleanLine(FixedEntryLines(rs[n])[j])
      ensures StatusLine(rs[n]) != ""
    {
      var r := rs[n];
      RecordLinesClean(r);
      var e, f := EntryLines(r), FixedEntryLines(r);
      if j == 0 {
        assert e[j] == r.title && f[j] == r.finalUrl;
      } else if j == 1 {
        assert e[j] == r.finalUrl && f[j] == r.title;
      } else {
        assert e[j] == StatusLine(r) && f[j] == StatusLine(r);
      }
    }
  }

  /** The lines a second run scans, block by block. */
  lemma RereadLines(rs: seq<LinkRecord>, layout: LinkRecord -> seq<string>)
    requires |rs| > 0
    requires forall n :: 0 <= n < |rs| ==> |layout(rs[n])| == 3
    requires forall n, j :: 0 <= n < |rs| && 0 <= j < 3 ==> CleanLine(layout(rs[n])[j])
    requires layout(rs[0])[0] != "" && layout(rs[|rs| - 1])[2] != ""
    ensures var ls := StrippedLines(RenderLinksFile(rs, layout));
            && |ls| == 4 * |rs| - 1
            && (forall n, j :: 0 <= n < |rs| && 0 <= j < 3 ==> ls[4 * n + j] == layout(rs[n])[j])
            && (forall n :: 0 <= n < |rs| - 1 ==> ls[4 * n + 3] == "")
  {
    var bs := Layouts(rs, layout);
    assert forall n :: 0 <= n < |bs| ==> bs[n] == layout(rs[n]);
    WrittenLines(rs, layout);
    BlocksLayout(bs);
  }

  /** The pair read back from the scanner's `n`-th hit. */
  lemma {:induction false} ParsedAt(text: string, n: nat, at: nat, title: nat)
    requires var hs := Scan(StrippedLines(text), 0);
             n < |hs| && hs[n] == Hit(at, Some(title))
    ensures var ls := StrippedLines(text);
            && n < |ParseLinks(text)|
            && ParseLinks(text)[n] == Pair(ls[title], RepairUrl(ls[at]))
  {
    var scanned := ScannedPairs(StrippedLines(text));
    assert ParseLinks(text)[..|scanned|] == scanned;
    assert ParseLinks(text)[n] == scanned[n];
  }

  /** Lines laid out as `main` writes them have the title-first shape. */
  lemma AsWrittenShape(ls: seq<string>, rs: seq<LinkRecord>)
    requires |rs| > 0 && |ls| == 4 * |rs| - 1
    requires forall n :: 0 <= n < |rs| ==> !StartsWith(rs[n].title, UrlScheme)
    requires forall n :: 0 <= n < |rs| ==>
               StartsWith(rs[n].finalUrl, UrlScheme) && StatusLine(rs[n]) != ""
    requires forall n, j :: 0 <= n < |rs| && 0 <= j < 3 ==> ls[4 * n + j] == EntryLines(rs[n])[j]
    requires forall n :: 0 <= n < |rs| - 1 ==> ls[4 * n + 3] == ""
    ensures TitleFirstShape(ls, |rs|)
  {
    forall n | 0 <= n < |rs|
      ensures TitleFirstBlock(ls, n)
    {
      assert ls[4 * n + 0] == EntryLines(rs[n])[0];
      assert ls[4 * n + 1] == EntryLines(rs[n])[1];
      assert ls[4 * n + 2] == EntryLines(rs[n])[2];
    }
    forall n | 0 <= n < |rs| - 1
      ensures Separated(ls, n)
    {
    }
  }

  /** Lines laid out with `FixedEntryLines` have the URL-first shape. */
  lemma FixedShape(ls: seq<string>, rs: seq<LinkRecord>)
    requires |rs| > 0 && |ls| == 4 * |rs| - 1
    requires forall n :: 0 <= n < |rs| ==> Writable(rs[n]) && !StartsWith(StatusLine(rs[n]), UrlScheme)
    requires forall n, j :: 0 <= n < |rs| && 0 <= j < 3 ==> ls[4 * n + j] == FixedEntryLines(rs[n])[j]
    requires forall n :: 0 <= n < |rs| - 1 ==> ls[4 * n + 3] == ""
    ensures UrlFirstShape(ls, |rs|)
    ensures forall n :: 0 <= n < |rs| ==> ls[4 * n] == rs[n].finalUrl && ls[4 * n + 1] == rs[n].title
  {
    forall n | 0 <= n < |rs|
      ensures UrlFirstBlock(ls, n)
      ensures ls[4 * n] == rs[n].finalUrl && ls[4 * n + 1] == rs[n].title
    {
      assert ls[4 * n + 0] == FixedEntryLines(rs[n])[0];
      assert ls[4 * n + 1] == FixedEntryLines(rs[n])[1];
      assert ls[4 * n + 2] == FixedEntryLines(rs[n])[2];
    }
    forall n | 0 <= n < |rs| - 1
      ensures Separated(ls, n)
    {
    }
  }

  /** Parsing a text of title-first shape pairs each URL with the line two
      below its block's title. */
  lemma ParseTitleFirst(text: string, k: nat)
    requires TitleFirstShape(StrippedLines(text), k)
    ensures var ls := StrippedLines(text);
            && |ParseLinks(text)| >= k
            && forall n :: 0 <= n < k ==>
                 ParseLinks(text)[n] == Pair(ls[4 * n + 2], RepairUrl(ls[4 * n + 1]))
  {
    ScanAllTitleFirst(StrippedLines(text), k);
    ParsedBlocks(text, k, 1, 2);
  }

  /** Parsing a text of URL-first shape pairs each URL with the line below. */
  lemma ParseUrlFirst(text: string, k: nat)
    requires UrlFirstShape(StrippedLines(text), k)
    ensures var ls := StrippedLines(text);
            && |ParseLinks(text)| >= k
            && forall n :: 0 <= n < k ==>
                 ParseLinks(text)[n] == Pair(ls[4 * n + 1], RepairUrl(ls[4 * n]))
  {
    ScanAllUrlFirst(StrippedLines(text), k);
    ParsedBlocks(text, k, 0, 1);
  }

  /** When the scan finds exactly one titled hit per four-line block, at
      offsets `u` and `t`, parsing gives one pair per block. */
  lemma {:induction false} ParsedBlocks(text: string, k: nat, u: nat, t: nat)
    requires var hs := Scan(StrippedLines(text), 0);
             && |hs| == k > 0
             && forall m :: 0 <= m < k ==> hs[m] == Hit(4 * m + u, Some(4 * m + t))
    ensures var ls := StrippedLines(text);
            && |ParseLinks(text)| >= k
            && forall n :: 0 <= n < k ==>
                 4 * n + t < |ls| && 4 * n + u < |ls| &&
                 ParseLinks(text)[n] == Pair(ls[4 * n + t], RepairUrl(ls[4 * n + u]))
  {
    var ls := StrippedLines(text);
    var hs := Scan(ls, 0);
    var ps := ParseLinks(text);
    forall n | 0 <= n < |hs| && hs[n].titleAt.Some?
      ensures PairOfHit(ls, hs[n], ps, n)
    {
      ParsedAt(text, n, hs[n].at, hs[n].titleAt.value);
    }
    BlocksOfHits(ls, hs, ps, k, u, t);
  }

  /** The `n`-th pair is the one read from hit `h`. */
  predicate PairOfHit(ls: seq<string>, h: Hit, ps: seq<Pair>, n: nat) {
    && h.titleAt.Some? && n < |ps| && h.titleAt.value < |ls| && h.at < |ls|
    && ps[n] == Pair(ls[h.titleAt.value], RepairUrl(ls[h.at]))
  }

  /** `ParsedBlocks` over plain sequences: hits at fixed offsets of
      four-line blocks give one pair per block. */
  lemma {:induction false} BlocksOfHits(ls: seq<string>, hs: seq<Hit>, ps: seq<Pair>, k: nat, u: nat, t: nat)
    requires |hs| == k > 0
    requires forall m :: 0 <= m < k ==> hs[m] == Hit(4 * m + u, Some(4 * m + t))
    requires forall n :: 0 <= n < |hs| && hs[n].titleAt.Some? ==> PairOfHit(ls, hs[n], ps, n)
    ensures |ps| >= k
    ensures forall n :: 0 <= n < k ==>
              4 * n + t < |ls| && 4 * n + u < |ls| && ps[n] == Pair(ls[4 * n + t], RepairUrl(ls[4 * n + u]))
  {
    assert PairOfHit(ls, hs[k - 1], ps, k - 1);
    forall n | 0 <= n < k
      ensures 4 * n + t < |ls| && 4 * n + u < |ls| && ps[n] == Pair(ls[4 * n + t], RepairUrl(ls[4 * n + u]))
    {
      assert hs[n] == Hit(4 * n + u, Some(4 * n + t));
      assert PairOfHit(ls, hs[n], ps, n);
    }
  }

  /** As written: re-parsing the rewritten file gives, for every entry, its
      status line as title, and the entry's own title is lost. */
  lemma RereadAsWritten(rs: seq<LinkRecord>)
    requires forall n :: 0 <= n < |rs| ==> Writable(rs[n]) && !StartsWith(rs[n].title, UrlScheme)
    ensures var pairs := ParseLinks(RenderLinksFile(rs, EntryLines));
            && |pairs| >= |rs|
            && forall n :: 0 <= n < |rs| ==>
                 pairs[n] == Pair(StatusLine(rs[n]), RepairUrl(rs[n].finalUrl))
  {
    if |rs| > 0 {
      var text := RenderLinksFile(rs, EntryLines);
      var ls := StrippedLines(text);
      EntryLinesClean(rs);
      RereadLines(rs, EntryLines);
      AsWrittenShape(ls, rs);
      ParseTitleFirst(text, |rs|);
      forall n | 0 <= n < |rs|
        ensures ParseLinks(text)[n] == Pair(StatusLine(rs[n]), RepairUrl(rs[n].finalUrl))
      {
        assert ls[4 * n + 1] == EntryLines(rs[n])[1];
        assert ls[4 * n + 2] == EntryLines(rs[n])[2];
      }
    }
  }

  /** No status line is a URL. */
  lemma StatusLinesNoUrl(rs: seq<LinkRecord>)
    ensures forall n :: 0 <= n < |rs| ==> !StartsWith(StatusLine(rs[n]), UrlScheme)
  {
    forall n | 0 <= n < |rs|
      ensures !StartsWith(StatusLine(rs[n]), UrlScheme)
    {
      StatusLineClean(rs[n]);
    }
  }

  lemma FixedLinesRaw(rs: seq<LinkRecord>)
    requires |rs| > 0
    requires forall n :: 0 <= n < |rs| ==> Writable(rs[n])
    ensures var ls := StrippedLines(RenderLinksFile(rs, FixedEntryLines));
            && |ls| == 4 * |rs| - 1
            && (forall n, j :: 0 <= n < |rs| && 0 <= j < 3 ==> ls[4 * n + j] == FixedEntryLines(rs[n])[j])
            && (forall n :: 0 <= n < |rs| - 1 ==> ls[4 * n + 3] == "")
  {
    EntryLinesClean(rs);
    RereadLines(rs, FixedEntryLines);
  }

  /** The lines a second run scans in the file written with
      `FixedEntryLines`. */
  lemma FixedLines(rs: seq<LinkRecord>)
    requires |rs| > 0
    requires forall n :: 0 <= n < |rs| ==> Writable(rs[n])
    ensures var ls := StrippedLines(RenderLinksFile(rs, FixedEntryLines));
            && UrlFirstShape(ls, |rs|)
            && forall n :: 0 <= n < |rs| ==> ls[4 * n] == rs[n].finalUrl && ls[4 * n + 1] == rs[n].title
  {
    var ls := StrippedLines(RenderLinksFile(rs, FixedEntryLines));
    FixedLinesRaw(rs);
    StatusLinesNoUrl(rs);
    FixedShape(ls, rs);
  }

  /** Corrected: with the URL written before the title, re-parsing the
      rewritten file gives back every entry's title and (repaired) final
      URL, in order. */
  lemma RereadFixed(rs: seq<LinkRecord>)
    requires forall n :: 0 <= n < |rs| ==> Writable(rs[n])
    ensures var pairs := ParseLinks(RenderLinksFile(rs, FixedEntryLines));
            && |pairs| >= |rs|
            && forall n :: 0 <= n < |rs| ==>
                 pairs[n] == Pair(rs[n].title, RepairUrl(rs[n].finalUrl))
  {
    if |rs| > 0 {
      var text := RenderLinksFile(rs, FixedEntryLines);
      FixedLines(rs);
      ParseUrlFirst(text, |rs|);
    }
  }

  /** Corrected, for URLs that need no repair: a second run reads back
      exactly the titles and final URLs the first run wrote. */
  lemma RereadFixedIdentity(rs: seq<LinkRecord>)
    requires forall n :: 0 <= n < |rs| ==> Writable(rs[n]) && Count(rs[n].finalUrl, YouTube) <= 1
    ensures var pairs := ParseLinks(RenderLinksFile(rs, FixedEntryLines));
            && |pairs| >= |rs|
            && forall n :: 0 <= n < |rs| ==> pairs[n] == Pair(rs[n].title, rs[n].finalUrl)
  {
    RereadFixed(rs);
  }
}
