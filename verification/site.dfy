/** The site script's data logic (Moneyprinterg/script.js): the lookup key
    `norm`, `titleFromFile`, the music grid's join of cover files with the
    links file, the search dataset, and the search box's suggestion list
    with its keyboard selection index.  The DOM is reduced to the state the
    handlers read and write. */
module Site {
  import opened Wrappers
  import opened Text
  import opened UrlEncoding
  import opened Discography

  /** `/\.(png|jpeg|jpg)$/i`, in the script's order of alternatives. */
  const SiteImageExtensions := [".png", ".jpeg", ".jpg"]
  const YouTubeSearch := "https://www.youtube.com/results?search_query="
  const CoversDir := "../covers/"
  const MaxSuggestions := 6
  const NoUrl := "#"

  // ---------------------------------------------------------------------------
  // norm and titleFromFile
  // ---------------------------------------------------------------------------

  /** `s.replace(/(alt1|alt2|…)$/, '')` for literal alternatives: without the
      `m` flag, JavaScript's `$` matches only at the very end. */
  function JsCutEnd(s: string, alts: seq<string>, ignoreCase: bool): (r: string)
    ensures |r| <= |s|
    ensures EndMatch(s, alts, ignoreCase).Some? ==> |r| < |s| || EndMatch(s, alts, ignoreCase).value == 0
  {
    match EndMatch(s, alts, ignoreCase)
    case Some(n) => s[..|s| - n]
    case None => s
  }

  /** The script's `norm`: lower-case, drop one image extension, drop a final
      `_mpg`, keep `[a-z0-9]`. */
  function JsNorm(s: string): (r: string)
    ensures forall k :: 0 <= k < |r| ==> IsLowerAlnum(r[k])
  {
    Keep(JsCutEnd(JsCutEnd(Lower(s), SiteImageExtensions, true), [MpgSuffix], true), IsLowerAlnum)
  }

  /** The script's `titleFromFile`. */
  function TitleFromFile(name: string): string {
    TitleCase(ReplaceChar(JsCutEnd(JsCutEnd(name, SiteImageExtensions, true), [MpgSuffix], true), '_', ' '))
  }

  predicate NoNewline(s: string) {
    forall k :: 0 <= k < |s| ==> s[k] != '\n'
  }

  /** The order of the extension alternatives does not matter: no string
      ends with two of them. */
  lemma ExtensionOrder(s: string, ignoreCase: bool)
    ensures EndMatch(s, SiteImageExtensions, ignoreCase) == EndMatch(s, ImageExtensions, ignoreCase)
  {
    NotJpgAndJpeg(s, ignoreCase);
    EndMatchSwap(s, ".jpeg", ".jpg", ignoreCase);
    EndMatchSameTail(s, ".png", [".jpeg", ".jpg"], [".jpg", ".jpeg"], ignoreCase);
    assert SiteImageExtensions == [".png"] + [".jpeg", ".jpg"];
    assert ImageExtensions == [".png"] + [".jpg", ".jpeg"];
  }

  /** Two alternatives that never both end `s` may be tried in either
      order. */
  lemma EndMatchSwap(s: string, a: string, b: string, ignoreCase: bool)
    requires !(EndsWithCase(s, a, ignoreCase) && EndsWithCase(s, b, ignoreCase))
    ensures EndMatch(s, [a, b], ignoreCase) == EndMatch(s, [b, a], ignoreCase)
  {
    assert [a, b][1..] == [b];
    assert [b, a][1..] == [a];
    EndMatchOne(s, a, ignoreCase);
    EndMatchOne(s, b, ignoreCase);
  }

  lemma EndMatchSameTail(s: string, p: string, xs: seq<string>, ys: seq<string>, ignoreCase: bool)
    requires EndMatch(s, xs, ignoreCase) == EndMatch(s, ys, ignoreCase)
    ensures EndMatch(s, [p] + xs, ignoreCase) == EndMatch(s, [p] + ys, ignoreCase)
  {
    assert ([p] + xs)[1..] == xs;
    assert ([p] + ys)[1..] == ys;
  }

  lemma EndMatchOne(s: string, alt: string, ignoreCase: bool)
    ensures EndMatch(s, [alt], ignoreCase) == if EndsWithCase(s, alt, ignoreCase) then Some(|alt|) else None
  {
    assert [alt][1..] == [];
  }

  lemma NotJpgAndJpeg(s: string, ignoreCase: bool)
    ensures !(EndsWithCase(s, ".jpg", ignoreCase) && EndsWithCase(s, ".jpeg", ignoreCase))
  {
    if |s| >= 5 {
      var u := s[|s| - 5..];
      assert s[|s| - 4..] == u[1..];
      var t := if ignoreCase then Lower(u) else u;
      assert EndsWithCase(s, ".jpeg", ignoreCase) ==> t == ".jpeg";
      assert EndsWithCase(s, ".jpg", ignoreCase) ==> t[1..] == ".jpg";
    }
  }

  /** On a string without "\n" Python's and JavaScript's `$` agree. */
  lemma CutEndAgree(s: string, alts: seq<string>, ignoreCase: bool)
    requires NoNewline(s)
    ensures PyCutEnd(s, alts, ignoreCase) == JsCutEnd(s, alts, ignoreCase)
    ensures NoNewline(JsCutEnd(s, alts, ignoreCase))
  {
    assert |s| > 0 ==> s[|s| - 1] != '\n';
  }

  /** The script's key for a cover file is the build's corrected key. */
  lemma JsNormIsCoverKey(name: string)
    requires NoNewline(name)
    ensures JsNorm(name) == CoverKey(name)
  {
    var l := Lower(name);
    assert NoNewline(l);
    LowerIdempotent(name);
    ExtensionOrder(l, true);
    EndMatchAgreeLower(l, ImageExtensions);
    CutEndAgree(l, ImageExtensions, false);
    var a := JsCutEnd(l, ImageExtensions, false);
    assert JsCutEnd(l, SiteImageExtensions, true) == a;
    JsCutEndKeepsLower(l, ImageExtensions);
    EndMatchAgreeLower(a, [MpgSuffix]);
    CutEndAgree(a, [MpgSuffix], false);
    assert JsCutEnd(a, [MpgSuffix], true) == PyCutEnd(a, [MpgSuffix], false);
  }

  lemma JsCutEndKeepsLower(s: string, alts: seq<string>)
    requires Lower(s) == s
    ensures Lower(JsCutEnd(s, alts, false)) == JsCutEnd(s, alts, false)
  {
    match EndMatch(s, alts, false)
    case Some(n) => LowerPrefix(s, |s| - n);
    case None =>
  }

  /** On a lower-case string, matching ignoring case is plain matching. */
  lemma EndMatchAgreeLower(s: string, alts: seq<string>)
    requires Lower(s) == s
    ensures EndMatch(s, alts, true) == EndMatch(s, alts, false)
  {
    EndMatchLower(s, alts);
  }

  /** The script's display title is the build's. */
  lemma TitleFromFileIsBuildTitle(name: string)
    requires NoNewline(name)
    ensures TitleFromFile(name) == TitleFromFilename(name)
  {
    ExtensionOrder(name, true);
    CutEndAgree(name, ImageExtensions, true);
    CutEndAgree(JsCutEnd(name, ImageExtensions, true), [MpgSuffix], true);
  }

  /** The two `norm`s part on a cover file name: the build's keeps the
      extension, the script's drops it. */
  lemma NormsDiffer()
    ensures PyNorm("a.png") == "apng" && JsNorm("a.png") == "a"
  {
    NormOfFileName();
    var l := "a.png";
    assert Lower(l) == l;
    assert EndsWithIgnoreCase(l, ".png");
    assert EndMatch(l, SiteImageExtensions, true) == Some(4);
    assert JsCutEnd(l, SiteImageExtensions, true) == "a";
    assert EndMatch("a", [MpgSuffix], true).None?;
    assert Keep("a", IsLowerAlnum) == "a";
  }

  /** A key is its own key. */
  lemma JsNormIdempotent(s: string)
    ensures JsNorm(JsNorm(s)) == JsNorm(s)
  {
    var r := JsNorm(s);
    LowerOfLowerAlnum(r);
    AlnumEndsWithNone(r, SiteImageExtensions);
    AlnumEndsWithNone(r, [MpgSuffix]);
  }

  /** Lower-case letters and digits end with no alternative that starts with
      some other character. */
  lemma {:induction false} AlnumEndsWithNone(r: string, alts: seq<string>)
    requires forall k :: 0 <= k < |r| ==> IsLowerAlnum(r[k])
    requires forall i :: 0 <= i < |alts| ==> |alts[i]| > 0 && !IsLowerAlnum(alts[i][0])
    ensures EndMatch(r, alts, true).None?
    decreases |alts|
  {
    if |alts| > 0 {
      var p := alts[0];
      if |p| <= |r| {
        assert Lower(r[|r| - |p|..])[0] == LowerChar(r[|r| - |p|]);
      }
      AlnumEndsWithNone(r, alts[1..]);
    }
  }

  // ---------------------------------------------------------------------------
  // The music grid
  // ---------------------------------------------------------------------------

  /** `if (entry && entry.title && entry.final_url)`. */
  predicate GridUsable(e: LinkEntry) {
    Truthy(e.title) && Truthy(e.finalUrl)
  }

  function GridKey(e: LinkEntry): string { JsNorm(StrOr(e.title)) }

  function FinalUrlOf(e: LinkEntry): string { StrOr(e.finalUrl) }

  /** The object `map` the grid looks links up in. */
  function GridLinkMap(entries: seq<LinkEntry>): (m: map<string, string>)
    ensures forall key :: key in m ==> m[key] != ""
  {
    KeyedMap(entries, GridUsable, GridKey, FinalUrlOf)
  }

  datatype GridItem = GridItem(title: string, img: string, link: string)

  /** The YouTube search the grid falls back to. */
  function SearchLink(title: string): string {
    YouTubeSearch + EncodeUriComponent(ArtistName + " " + title)
  }

  /** One grid item per file, in order. */
  function GridItems(files: seq<string>, entries: seq<LinkEntry>): (items: seq<GridItem>)
    ensures |items| == |files|
    ensures forall i :: 0 <= i < |files| ==>
              items[i].title == TitleFromFile(files[i]) && items[i].img == CoversDir + files[i]
  {
    var m := GridLinkMap(entries);
    seq(|files|, i requires 0 <= i < |files| =>
      var key := JsNorm(files[i]);
      GridItem(TitleFromFile(files[i]), CoversDir + files[i],
               if key in m then m[key] else SearchLink(TitleFromFile(files[i]))))
  }

  /** A file's link is the `final_url` of the last links entry, with a title
      and a final URL, whose key is the file's key. */
  lemma GridLinkFound(files: seq<string>, entries: seq<LinkEntry>, f: nat, i: nat)
    requires f < |files| && i < |entries| && GridUsable(entries[i]) && GridKey(entries[i]) == JsNorm(files[f])
    requires forall j :: i < j < |entries| && GridUsable(entries[j]) ==> GridKey(entries[j]) != JsNorm(files[f])
    ensures GridItems(files, entries)[f].link == entries[i].finalUrl.s
  {
    KeyedMapLast(entries, GridUsable, GridKey, FinalUrlOf, i);
  }

  /** Without such an entry the link is a YouTube search whose query decodes
      to the artist name and the title. */
  lemma GridLinkFallback(files: seq<string>, entries: seq<LinkEntry>, f: nat)
    requires f < |files|
    requires forall j :: 0 <= j < |entries| && GridUsable(entries[j]) ==> GridKey(entries[j]) != JsNorm(files[f])
    ensures var link := GridItems(files, entries)[f].link;
            && StartsWith(link, YouTubeSearch)
            && Unquote(link[|YouTubeSearch|..]) == Utf8String(ArtistName + " " + TitleFromFile(files[f]))
  {
    KeyedMapKeys(entries, GridUsable, GridKey, FinalUrlOf, JsNorm(files[f]));
    var q := ArtistName + " " + TitleFromFile(files[f]);
    EncodeUriComponentRoundTrip(q);
    var link := GridItems(files, entries)[f].link;
    assert link == YouTubeSearch + EncodeUriComponent(q);
    assert link[|YouTubeSearch|..] == EncodeUriComponent(q);
  }

  // ---------------------------------------------------------------------------
  // The search dataset
  // ---------------------------------------------------------------------------

  /** A track of the discography file as the search reads it: its title and
      `platforms.youtube` (absent when `platforms` is). */
  datatype DiscogTrack = DiscogTrack(title: Json, youtube: Json)

  /** A search entry: the caption as read from the files, and a URL. */
  datatype DataEntry = DataEntry(caption: Json, url: string)

  /** `v || fallback` for a value that is a string or falsy: a non-empty
      string is kept, anything else gives the fallback. */
  function JsOr(v: Json, fallback: string): (r: string)
    ensures Truthy(v) ==> r == v.s && r != ""
    ensures !Truthy(v) ==> r == fallback
  {
    if Truthy(v) then v.s else fallback
  }

  /** The dataset: discography titles (URL: the YouTube link or "#"), then
      links entries (URL: the final URL, else the URL, else "#"). */
  function Dataset(tracks: seq<DiscogTrack>, links: seq<LinkEntry>): (ds: seq<DataEntry>)
    ensures |ds| == |tracks| + |links|
    ensures forall i :: 0 <= i < |ds| ==> ds[i].url != ""
    ensures forall i :: 0 <= i < |tracks| ==> ds[i].caption == tracks[i].title
    ensures forall j :: 0 <= j < |links| ==> ds[|tracks| + j].caption == links[j].title
    ensures forall i :: 0 <= i < |tracks| ==>
              ds[i].url == if Truthy(tracks[i].youtube) then tracks[i].youtube.s else NoUrl
    ensures forall j :: 0 <= j < |links| ==>
              ds[|tracks| + j].url == if Truthy(links[j].finalUrl) then links[j].finalUrl.s
                                      else if Truthy(links[j].url) then links[j].url.s
                                      else NoUrl
  {
    seq(|tracks|, i requires 0 <= i < |tracks| => DataEntry(tracks[i].title, JsOr(tracks[i].youtube, NoUrl)))
    + seq(|links|, j requires 0 <= j < |links| =>
          DataEntry(links[j].title, JsOr(links[j].finalUrl, JsOr(links[j].url, NoUrl))))
  }

  // ---------------------------------------------------------------------------
  // Filtering
  // ---------------------------------------------------------------------------

  /** `d.label && d.label.toLowerCase().includes(q)`. */
  predicate Matches(d: DataEntry, q: string) {
    Truthy(d.caption) && Contains(Lower(d.caption.s), q)
  }

  /** `dataset.filter(d => Matches(d, q))`. */
  function Filter(ds: seq<DataEntry>, q: string): (r: seq<DataEntry>)
    ensures |r| <= |ds|
    ensures forall d :: d in r <==> d in ds && Matches(d, q)
  {
    if |ds| == 0 then []
    else
      var rest := Filter(ds[1..], q);
      assert forall d :: d in ds <==> d == ds[0] || d in ds[1..];
      (if Matches(ds[0], q) then [ds[0]] else []) + rest
  }

  /** Filtering keeps the dataset's order. */
  lemma {:induction false} FilterConcat(a: seq<DataEntry>, b: seq<DataEntry>, q: string)
    ensures Filter(a + b, q) == Filter(a, q) + Filter(b, q)
    decreases |a|
  {
    if |a| > 0 {
      assert (a + b)[0] == a[0] && (a + b)[1..] == a[1..] + b;
      FilterConcat(a[1..], b, q);
    } else {
      assert a + b == b;
    }
  }

  /** A rendered list item: its text and the URL its click opens (`None`
      when the lookup that produced it found nothing). */
  datatype Suggestion = Suggestion(caption: string, url: Option<string>)

  /** The suggestion list under one search box: the items rendered, whether
      it is displayed, and the keyboard selection `idx`. */
  datatype Widget = Widget(rendered: seq<Suggestion>, shown: bool, idx: int)

  const InitialWidget := Widget([], false, -1)

  function Suggest(ds: seq<DataEntry>): (ss: seq<Suggestion>)
    ensures |ss| == |ds|
  {
    seq(|ds|, i requires 0 <= i < |ds| => Suggestion(StrOr(ds[i].caption), Some(ds[i].url)))
  }

  function Take<T>(xs: seq<T>, n: nat): (r: seq<T>)
    ensures |r| == if |xs| <= n then |xs| else n
    ensures forall i :: 0 <= i < |r| ==> r[i] == xs[i]
  {
    if |xs| <= n then xs else xs[..n]
  }

  /** `render(items)`: at most six items, displayed iff there are any. */
  function Render(items: seq<Suggestion>, idx: int): (w: Widget)
    ensures |w.rendered| <= MaxSuggestions
    ensures w.shown <==> |items| > 0
    ensures |items| <= MaxSuggestions ==> w.rendered == items
  {
    Widget(Take(items, MaxSuggestions), |items| > 0, idx)
  }

  /** `hide()`: the items stay in the list, undisplayed. */
  function Hide(w: Widget): (r: Widget)
    ensures !r.shown && r.idx == -1 && r.rendered == w.rendered
  {
    w.(shown := false, idx := -1)
  }

  /** The `input` handler, given the box's value. */
  function OnInput(ds: seq<DataEntry>, w: Widget, value: string): (r: Widget)
    ensures r.idx == -1
    ensures Lower(JsTrim(value)) == "" ==> !r.shown && r.rendered == w.rendered
  {
    var q := Lower(JsTrim(value));
    if q == "" then Hide(w) else Render(Suggest(Filter(ds, q)), -1)
  }

  /** For a non-blank query the list shows the first six matching entries in
      dataset order, each labelled with an entry's caption, and is displayed
      iff some entry matches. */
  lemma OnInputShows(ds: seq<DataEntry>, w: Widget, value: string)
    requires Lower(JsTrim(value)) != ""
    ensures var q := Lower(JsTrim(value));
            var f := Filter(ds, q);
            var r := OnInput(ds, w, value);
            && (r.shown <==> exists d :: d in ds && Matches(d, q))
            && |r.rendered| == (if |f| <= MaxSuggestions then |f| else MaxSuggestions)
            && (forall i :: 0 <= i < |r.rendered| ==>
                  f[i] in ds && Matches(f[i], q) && r.rendered[i] == Suggestion(f[i].caption.s, Some(f[i].url)))
  {
    var q := Lower(JsTrim(value));
    var f := Filter(ds, q);
    assert OnInput(ds, w, value) == Render(Suggest(f), -1);
    FilterNonEmpty(ds, q);
    RenderedSuggestions(f);
    forall i | 0 <= i < |f|
      ensures f[i] in ds && Matches(f[i], q)
    {
      assert f[i] in f;
    }
  }

  /** Some entry matches exactly when the filtered list is not empty. */
  lemma FilterNonEmpty(ds: seq<DataEntry>, q: string)
    ensures |Filter(ds, q)| > 0 <==> exists d :: d in ds && Matches(d, q)
  {
    var f := Filter(ds, q);
    if exists d :: d in ds && Matches(d, q) {
      var d :| d in ds && Matches(d, q);
      assert d in f;
    } else if |f| > 0 {
      assert f[0] in f;
    }
  }

  /** The rendered list labels each of the first six entries by its
      caption. */
  lemma RenderedSuggestions(f: seq<DataEntry>)
    ensures var r := Render(Suggest(f), -1);
            forall i :: 0 <= i < |r.rendered| ==>
              i < |f| && r.rendered[i] == Suggestion(StrOr(f[i].caption), Some(f[i].url))
  {
  }

  /** Entry `i` is the first whose caption is exactly `caption`. */
  predicate FirstWithCaption(ds: seq<DataEntry>, caption: string, i: int) {
    && 0 <= i < |ds| && ds[i].caption == Str(caption)
    && forall j :: 0 <= j < i ==> ds[j].caption != Str(caption)
  }

  /** The first entry whose caption is exactly `caption`, and its URL. */
  function FindUrl(ds: seq<DataEntry>, caption: string): (u: Option<string>)
    ensures u.Some? <==> exists i :: 0 <= i < |ds| && ds[i].caption == Str(caption)
    ensures u.Some? ==> exists i :: FirstWithCaption(ds, caption, i) && u.value == ds[i].url
  {
    if |ds| == 0 then None
    else if ds[0].caption == Str(caption) then
      assert FirstWithCaption(ds, caption, 0);
      Some(ds[0].url)
    else
      var u := FindUrl(ds[1..], caption);
      assert forall i :: 1 <= i < |ds| ==> ds[i] == ds[1..][i - 1];
      if u.Some? then
        var i :| FirstWithCaption(ds[1..], caption, i) && u.value == ds[1..][i].url;
        assert FirstWithCaption(ds, caption, i + 1);
        u
      else u
  }

  /** Two entries cannot both be first for one caption. */
  lemma FirstWithCaptionUnique(ds: seq<DataEntry>, caption: string, i: int, k: int)
    requires FirstWithCaption(ds, caption, i) && FirstWithCaption(ds, caption, k)
    ensures i == k
  {
  }

  /** The URL found for a caption is the URL of the first entry with it. */
  lemma FindUrlFirst(ds: seq<DataEntry>, caption: string, k: int)
    requires FirstWithCaption(ds, caption, k)
    ensures FindUrl(ds, caption) == Some(ds[k].url)
  {
    var u := FindUrl(ds, caption);
    var i :| FirstWithCaption(ds, caption, i) && u.value == ds[i].url;
    FirstWithCaptionUnique(ds, caption, i, k);
  }

  /** Arrow keys re-render the current items, looking each URL up by caption. */
  function Relabel(ds: seq<DataEntry>, items: seq<Suggestion>): (r: seq<Suggestion>)
    ensures |r| == |items|
    ensures forall i :: 0 <= i < |items| ==> r[i].caption == items[i].caption
    ensures forall i :: 0 <= i < |items| ==> r[i].url == FindUrl(ds, items[i].caption)
  {
    seq(|items|, i requires 0 <= i < |items| => Suggestion(items[i].caption, FindUrl(ds, items[i].caption)))
  }

  function Min(a: int, b: int): int { if a <= b then a else b }
  function Max(a: int, b: int): int { if a >= b then a else b }

  /** ArrowDown: the selection moves down, and the current items are
      rendered again (and displayed, if there are any), each with the URL
      of the first entry carrying its caption. */
  function OnArrowDown(ds: seq<DataEntry>, w: Widget): (r: Widget)
    ensures r.idx == Min(w.idx + 1, |w.rendered| - 1)
    ensures r.shown <==> |w.rendered| > 0
    ensures |r.rendered| == Min(|w.rendered|, MaxSuggestions)
    ensures forall i :: 0 <= i < |r.rendered| ==>
              r.rendered[i] == Suggestion(w.rendered[i].caption, FindUrl(ds, w.rendered[i].caption))
  {
    Render(Relabel(ds, w.rendered), Min(w.idx + 1, |w.rendered| - 1))
  }

  /** ArrowUp: as ArrowDown, with the selection moving up. */
  function OnArrowUp(ds: seq<DataEntry>, w: Widget): (r: Widget)
    ensures r.idx == Max(w.idx - 1, 0)
    ensures r.shown <==> |w.rendered| > 0
    ensures |r.rendered| == Min(|w.rendered|, MaxSuggestions)
    ensures forall i :: 0 <= i < |r.rendered| ==>
              r.rendered[i] == Suggestion(w.rendered[i].caption, FindUrl(ds, w.rendered[i].caption))
  {
    Render(Relabel(ds, w.rendered), Max(w.idx - 1, 0))
  }

  /** After Escape has hidden a non-empty list, ArrowDown displays it again
      with the first item selected. */
  lemma ArrowDownReshows(ds: seq<DataEntry>, w: Widget)
    requires |w.rendered| > 0
    ensures OnArrowDown(ds, Step(ds, w, KeyEscape).0).shown
    ensures OnArrowDown(ds, Step(ds, w, KeyEscape).0).idx == 0
  {
  }

  /** After an arrow key, clicking an item opens the URL of the first entry
      with that item's caption, even when a later entry with the same caption
      was the one listed. */
  lemma ArrowThenClickOpensFirst(ds: seq<DataEntry>, w: Widget, i: nat, k: int)
    requires Valid(w) && i < |w.rendered|
    requires FirstWithCaption(ds, w.rendered[i].caption, k)
    ensures Step(ds, OnArrowDown(ds, w), ClickItem(i)).1 == Open(Some(ds[k].url))
    ensures Step(ds, OnArrowUp(ds, w), ClickItem(i)).1 == Open(Some(ds[k].url))
  {
    FindUrlFirst(ds, w.rendered[i].caption, k);
  }

  /** The first entry with a caption whose lower-case form equals or contains
      `l` (`dataset.find(...)` on Enter). */
  function FindMatch(ds: seq<DataEntry>, l: string): Option<DataEntry> {
    if |ds| == 0 then None
    else if Truthy(ds[0].caption) && (Lower(ds[0].caption.s) == l || Contains(Lower(ds[0].caption.s), l)) then
      Some(ds[0])
    else FindMatch(ds[1..], l)
  }

  /** Enter opens the first entry the filter would list for that caption. */
  lemma {:induction false} FindMatchIsFirstFiltered(ds: seq<DataEntry>, l: string)
    ensures FindMatch(ds, l) == if |Filter(ds, l)| > 0 then Some(Filter(ds, l)[0]) else None
    decreases |ds|
  {
    if |ds| > 0 {
      var lab := Lower(StrOr(ds[0].caption));
      if lab == l {
        ContainsIff(lab, l);
        assert OccursAt(lab, l, 0);
      }
      FindMatchIsFirstFiltered(ds[1..], l);
    }
  }

  /** What a handler opened in a new window. */
  datatype Opened = Nothing | Open(url: Option<string>)

  /** The Enter handler: the selected item's text, or the box's raw value
      when nothing is selected, picks the entry to open; the list hides. */
  function OnEnter(ds: seq<DataEntry>, w: Widget, value: string): (r: (Widget, Opened))
    ensures !r.0.shown && r.0.idx == -1
    ensures var c := if 0 <= w.idx < |w.rendered| then w.rendered[w.idx].caption else value;
            var f := Filter(ds, Lower(c));
            r.1 == if |f| > 0 then Open(Some(f[0].url)) else Nothing
  {
    var caption := if 0 <= w.idx < |w.rendered| then w.rendered[w.idx].caption else value;
    FindMatchIsFirstFiltered(ds, Lower(caption));
    match FindMatch(ds, Lower(caption))
    case Some(d) => (Hide(w), Open(Some(d.url)))
    case None => (Hide(w), Nothing)
  }

  datatype Event =
    | Typed(value: string)
    | KeyArrowDown
    | KeyArrowUp
    | KeyEnter(value: string)
    | KeyEscape
    | OtherKey
    | ClickOutside
    | ClickItem(i: nat)

  /** One event on one search box. */
  function Step(ds: seq<DataEntry>, w: Widget, e: Event): (Widget, Opened) {
    match e
    case Typed(v) => (OnInput(ds, w, v), Nothing)
    case KeyArrowDown => (OnArrowDown(ds, w), Nothing)
    case KeyArrowUp => (OnArrowUp(ds, w), Nothing)
    case KeyEnter(v) => OnEnter(ds, w, v)
    case KeyEscape => (Hide(w), Nothing)
    case OtherKey => (w, Nothing)
    case ClickOutside => (Hide(w), Nothing)
    case ClickItem(i) =>
      if w.shown && i < |w.rendered| then (Hide(w), Open(w.rendered[i].url)) else (w, Nothing)
  }

  /** The widget's invariant: at most six items, a displayed list is not
      empty, and the index is -1 or within the items (0 also when there are
      none, where ArrowUp leaves it). */
  predicate Valid(w: Widget) {
    && |w.rendered| <= MaxSuggestions
    && (w.shown ==> |w.rendered| > 0)
    && -1 <= w.idx <= Max(|w.rendered| - 1, 0)
  }

  /** Every event keeps the invariant; after an arrow key over a non-empty
      list the index selects an item. */
  lemma StepValid(ds: seq<DataEntry>, w: Widget, e: Event)
    requires Valid(w)
    ensures Valid(Step(ds, w, e).0)
    ensures (e == KeyArrowDown || e == KeyArrowUp) && |w.rendered| > 0 ==>
              0 <= Step(ds, w, e).0.idx < |Step(ds, w, e).0.rendered|
  {
  }

  /** Events in order, collecting what was opened. */
  function Run(ds: seq<DataEntry>, w: Widget, events: seq<Event>): (r: (Widget, seq<Opened>))
    ensures |r.1| == |events|
    decreases |events|
  {
    if |events| == 0 then (w, [])
    else
      var (w1, o) := Step(ds, w, events[0]);
      var (w2, os) := Run(ds, w1, events[1..]);
      (w2, [o] + os)
  }

  lemma {:induction false} RunValid(ds: seq<DataEntry>, w: Widget, events: seq<Event>)
    requires Valid(w)
    ensures Valid(Run(ds, w, events).0)
    decreases |events|
  {
    if |events| > 0 {
      StepValid(ds, w, events[0]);
      RunValid(ds, Step(ds, w, events[0]).0, events[1..]);
    }
  }

  lemma InitialValid()
    ensures Valid(InitialWidget)
  {
  }
}
