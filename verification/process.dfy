/** The cover upscaler (process_covers.py): whether a cover is upscaled to
    at least 1000 pixels a side or only re-saved, the dimensions it gets, the
    backup taken before it is changed, the encoder parameters and the format
    reported for it, and the metadata list over the covers directory.
    Pillow's pixel work is left out; each image's size and detected format
    are parameters.  Sizes are computed over exact reals, with Python's
    round-half-to-even. */
module ProcessCovers {
  import opened Wrappers
  import opened Text
  import opened Sorting
  import opened Backups
  import opened Discography

  const MinSize: nat := 1000
  const JpegSuffixes := [".jpg", ".jpeg"]
  const JpegQuality := 85

  // ---------------------------------------------------------------------------
  // Rounding
  // ---------------------------------------------------------------------------

  /** Python's `round(x)`: to the nearest integer, ties to the even one. */
  function Round(x: real): (n: int)
    ensures x - 0.5 <= n as real <= x + 0.5
    ensures x - 0.5 < n as real < x + 0.5 || n % 2 == 0
  {
    var f := x.Floor;
    var frac := x - f as real;
    if frac < 0.5 then f
    else if frac > 0.5 then f + 1
    else if f % 2 == 0 then f else f + 1
  }

  /** Rounding never goes below an integer the value is at least. */
  lemma RoundAtLeast(x: real, n: int)
    requires x >= n as real
    ensures Round(x) >= n
  {
  }

  lemma RoundInteger(n: int)
    ensures Round(n as real) == n
  {
  }

  // ---------------------------------------------------------------------------
  // upscale_if_needed
  // ---------------------------------------------------------------------------

  /** What Pillow reports on opening a cover: its size and `im.format`. */
  datatype ImageInfo = ImageInfo(width: nat, height: nat, format: Option<string>)

  /** The keyword arguments of `im.save`. */
  datatype SaveKwargs = SaveKwargs(quality: Option<int>, optimize: bool, subsampling: Option<int>)

  /** The dictionary `upscale_if_needed` returns. */
  datatype CoverInfo = CoverInfo(changed: bool, width: nat, height: nat, format: string)

  datatype Outcome = Outcome(info: CoverInfo, save: SaveKwargs, backed: Backed)

  /** `(im.format or "").upper()`. */
  function DetectedFormat(im: ImageInfo): string {
    Upper(im.format.GetOr(""))
  }

  predicate HasJpegSuffix(name: string) {
    Lower(PathSuffix(name)) in JpegSuffixes
  }

  /** The save arguments: JPEG settings for a JPEG or a `.jpg`/`.jpeg` file,
      otherwise only `optimize`. */
  function Kwargs(fmt: string, name: string): (k: SaveKwargs)
    ensures k.optimize
    ensures k.quality.Some? <==> fmt == "JPEG" || HasJpegSuffix(name)
    ensures k.quality.Some? ==> k.quality == Some(JpegQuality) && k.subsampling == Some(0)
    ensures k.quality.None? ==> k.subsampling.None?
  {
    if fmt == "JPEG" || HasJpegSuffix(name) then SaveKwargs(Some(JpegQuality), true, Some(0))
    else SaveKwargs(None, true, None)
  }

  predicate NeedsUpscale(im: ImageInfo) {
    im.width < MinSize || im.height < MinSize
  }

  /** `max(MIN_SIZE / w, MIN_SIZE / h)`. */
  function Scale(w: nat, h: nat): (s: real)
    requires w > 0 && h > 0
    ensures s >= MinSize as real / w as real && s >= MinSize as real / h as real
    ensures s == MinSize as real / w as real || s == MinSize as real / h as real
  {
    var a := MinSize as real / w as real;
    var b := MinSize as real / h as real;
    if a >= b then a else b
  }

  /** `int(round(n * scale))` for a side of length `n`. */
  function Scaled(n: nat, scale: real): int {
    Round(n as real * scale)
  }

  /** `upscale_if_needed` on the cover called `name`; `None` when it raises
      (a side of length zero makes `MIN_SIZE / w` divide by zero). */
  function UpscaleIfNeeded(name: string, im: ImageInfo, b: Backed): (r: Option<Outcome>)
    ensures r.None? <==> NeedsUpscale(im) && (im.width == 0 || im.height == 0)
    ensures r.Some? ==> r.value.save == Kwargs(DetectedFormat(im), name)
                        && (r.value.info.changed <==> NeedsUpscale(im))
  {
    var fmt := DetectedFormat(im);
    var (w, h) := (im.width, im.height);
    if !NeedsUpscale(im) then
      Some(Outcome(CoverInfo(false, w, h, fmt), Kwargs(fmt, name), b))
    else if w == 0 || h == 0 then None
    else
      var scale := Scale(w, h);
      UpscaledSides(w, h);
      var (nw, nh) := (Scaled(w, scale), Scaled(h, scale));
      var reported := if fmt != "" then fmt else if HasJpegSuffix(name) then "JPEG" else "PNG";
      Some(Outcome(CoverInfo(true, nw, nh, reported), Kwargs(fmt, name), Backup(b, name)))
  }

  /** A side scaled by at least `MIN_SIZE / n` reaches `MIN_SIZE`. */
  lemma ScaledReaches(n: nat, s: real)
    requires n > 0 && s >= MinSize as real / n as real
    ensures Scaled(n, s) >= MinSize as int
  {
    var m := MinSize as real / n as real;
    assert n as real * m == MinSize as real;
    assert n as real * s >= n as real * m;
    RoundAtLeast(n as real * s, MinSize);
  }

  /** `v` is within half a pixel of `n` pixels scaled by `s`. */
  predicate Near(n: nat, s: real, v: int) {
    n as real * s - 0.5 <= v as real <= n as real * s + 0.5
  }

  lemma ScaledNear(n: nat, s: real)
    ensures Near(n, s, Scaled(n, s))
  {
  }

  lemma ScaledExact(n: nat)
    requires n > 0
    ensures Scaled(n, MinSize as real / n as real) == MinSize as int
  {
    assert n as real * (MinSize as real / n as real) == MinSize as real;
    RoundInteger(MinSize);
  }

  /** The shorter side has the larger ratio. */
  lemma RatioOfShorter(w: nat, h: nat)
    requires 0 < w <= h
    ensures MinSize as real / w as real >= MinSize as real / h as real
  {
    var (a, b) := (MinSize as real / w as real, MinSize as real / h as real);
    assert a * w as real == MinSize as real && b * h as real == MinSize as real;
    assert b * w as real <= b * h as real;
  }

  /** Both scaled sides reach the minimum, and the shorter side lands on it
      exactly. */
  lemma UpscaledSides(w: nat, h: nat)
    requires w > 0 && h > 0
    ensures Scaled(w, Scale(w, h)) >= MinSize as int && Scaled(h, Scale(w, h)) >= MinSize as int
    ensures w <= h ==> Scaled(w, Scale(w, h)) == MinSize as int
    ensures h <= w ==> Scaled(h, Scale(w, h)) == MinSize as int
  {
    var s := Scale(w, h);
    ScaledReaches(w, s);
    ScaledReaches(h, s);
    if w <= h {
      RatioOfShorter(w, h);
      ScaledExact(w);
    }
    if h <= w {
      RatioOfShorter(h, w);
      ScaledExact(h);
    }
  }

  /** A cover that is large enough is only re-saved: the entry reports it
      unchanged, with its own size and detected format, and no backup is
      taken. */
  lemma LargeCoverUnchanged(name: string, im: ImageInfo, b: Backed)
    requires !NeedsUpscale(im)
    ensures var r := UpscaleIfNeeded(name, im, b);
            r.Some? && !r.value.info.changed && r.value.backed == b
            && r.value.info.width == im.width && r.value.info.height == im.height
            && r.value.info.format == DetectedFormat(im)
  {
  }

  /** A cover that is too small is upscaled by one factor on both sides: both
      new sides reach 1000, the shorter one exactly. */
  lemma SmallCoverUpscaled(name: string, im: ImageInfo, b: Backed)
    requires NeedsUpscale(im) && im.width > 0 && im.height > 0
    ensures var r := UpscaleIfNeeded(name, im, b);
            && r.Some? && r.value.info.changed
            && r.value.info.width >= MinSize && r.value.info.height >= MinSize
            && (im.width <= im.height ==> r.value.info.width == MinSize)
            && (im.height <= im.width ==> r.value.info.height == MinSize)
  {
    UpscaledSides(im.width, im.height);
    SmallCoverOutcome(name, im, b);
  }

  /** Each side of an upscaled cover stays within half a pixel of the exact
      scaled length. */
  lemma SmallCoverNear(name: string, im: ImageInfo, b: Backed)
    requires NeedsUpscale(im) && im.width > 0 && im.height > 0
    ensures var r := UpscaleIfNeeded(name, im, b);
            var s := Scale(im.width, im.height);
            && r.Some?
            && Near(im.width, s, r.value.info.width)
            && Near(im.height, s, r.value.info.height)
  {
    var s := Scale(im.width, im.height);
    ScaledNear(im.width, s);
    ScaledNear(im.height, s);
    SmallCoverOutcome(name, im, b);
  }

  /** An upscaled cover's original is backed up unless a backup of that name
      exists, and the reported format falls back to the suffix when Pillow
      detected none. */
  lemma SmallCoverBackedUp(name: string, im: ImageInfo, b: Backed)
    requires NeedsUpscale(im) && im.width > 0 && im.height > 0
    ensures var r := UpscaleIfNeeded(name, im, b);
            && r.Some? && r.value.info.changed
            && (name in b.names ==> r.value.backed == b)
            && (name !in b.names ==> r.value.backed.copied == b.copied + [name])
            && name in r.value.backed.names
            && (DetectedFormat(im) != "" ==> r.value.info.format == DetectedFormat(im))
            && (DetectedFormat(im) == "" ==>
                  r.value.info.format == (if HasJpegSuffix(name) then "JPEG" else "PNG"))
  {
    SmallCoverOutcome(name, im, b);
  }

  lemma SmallCoverOutcome(name: string, im: ImageInfo, b: Backed)
    requires NeedsUpscale(im) && im.width > 0 && im.height > 0
    ensures var w := im.width;
            var h := im.height;
            var fmt := DetectedFormat(im);
            var reported := if fmt != "" then fmt else if HasJpegSuffix(name) then "JPEG" else "PNG";
            var s := Scale(w, h);
            var r := UpscaleIfNeeded(name, im, b);
            && r.Some? && r.value.info.changed
            && r.value.info.width == Scaled(w, s) && r.value.info.height == Scaled(h, s)
            && r.value.info.format == reported
            && r.value.save == Kwargs(fmt, name) && r.value.backed == Backup(b, name)
  {
  }

  // ---------------------------------------------------------------------------
  // main
  // ---------------------------------------------------------------------------

  /** The filter of `main`'s loop: a file with an image suffix. */
  predicate IsImageFile(e: DirEntry) {
    e.isFile && IsImageSuffix(PathSuffix(e.name))
  }

  function ImageFiles(listing: seq<DirEntry>): (fs: seq<DirEntry>)
    ensures |fs| <= |listing|
  {
    if |listing| == 0 then []
    else (if IsImageFile(listing[0]) then [listing[0]] else []) + ImageFiles(listing[1..])
  }

  /** Exactly the image files of the listing pass the filter. */
  lemma {:induction false} ImageFilesSpec(listing: seq<DirEntry>)
    ensures forall e :: e in ImageFiles(listing) <==> e in listing && IsImageFile(e)
    decreases |listing|
  {
    if |listing| > 0 {
      ImageFilesSpec(listing[1..]);
      assert forall e :: e in listing <==> e == listing[0] || e in listing[1..];
    }
  }

  /** The filter keeps the listing's order. */
  lemma {:induction false} ImageFilesSorted<K>(listing: seq<DirEntry>, key: DirEntry -> K, le: (K, K) -> bool)
    requires SortedBy(listing, key, le)
    ensures SortedBy(ImageFiles(listing), key, le)
    decreases |listing|
  {
    if |listing| > 0 {
      var rest := listing[1..];
      assert SortedBy(rest, key, le) by {
        assert forall i :: 0 <= i < |rest| ==> rest[i] == listing[i + 1];
      }
      ImageFilesSorted(rest, key, le);
      ImageFilesSpec(rest);
      var fs := ImageFiles(listing);
      if IsImageFile(listing[0]) {
        assert fs == [listing[0]] + ImageFiles(rest);
        forall j | 0 < j < |fs|
          ensures le(key(fs[0]), key(fs[j]))
        {
          assert fs[j] in ImageFiles(rest);
          var k :| 0 <= k < |rest| && rest[k] == fs[j];
          assert listing[k + 1] == fs[j];
        }
      }
    }
  }

  /** One element of the `covers` list. */
  datatype CoverMeta = CoverMeta(info: CoverInfo, filename: string)

  datatype Run = Run(covers: seq<CoverMeta>, backed: Backed)

  /** The loop of `main` over the image files, in order; `None` when one of
      them raises. */
  function Metadata(files: seq<DirEntry>, images: string -> ImageInfo, b: Backed): (r: Option<Run>)
    ensures r.Some? ==> |r.value.covers| == |files|
    ensures r.Some? ==> forall i :: 0 <= i < |files| ==> r.value.covers[i].filename == files[i].name
    decreases |files|
  {
    if |files| == 0 then Some(Run([], b))
    else
      var name := files[0].name;
      match UpscaleIfNeeded(name, images(name), b)
      case None => None
      case Some(o) =>
        match Metadata(files[1..], images, o.backed)
        case None => None
        case Some(rest) => Some(Run([CoverMeta(o.info, name)] + rest.covers, rest.backed))
  }

  /** `main`: one entry per image file of the directory, in `sorted` order. */
  function Main(listing: seq<DirEntry>, images: string -> ImageInfo, b: Backed): Option<Run> {
    Metadata(ImageFiles(SortedListing(listing)), images, b)
  }

  /** The run fails exactly when some image needs upscaling and has a side
      of length zero. */
  lemma {:induction false} MetadataFails(files: seq<DirEntry>, images: string -> ImageInfo, b: Backed)
    ensures Metadata(files, images, b).None? <==>
              exists i :: 0 <= i < |files| && NeedsUpscale(images(files[i].name))
                && (images(files[i].name).width == 0 || images(files[i].name).height == 0)
    decreases |files|
  {
    if |files| > 0 {
      var name := files[0].name;
      match UpscaleIfNeeded(name, images(name), b)
      case None =>
      case Some(o) =>
        MetadataFails(files[1..], images, o.backed);
        assert forall i :: 1 <= i < |files| ==> files[i] == files[1..][i - 1];
    }
  }

  /** One step of the loop: a successful run over `files` is the first
      file's entry followed by a successful run over the rest. */
  lemma MetadataStep(files: seq<DirEntry>, images: string -> ImageInfo, b: Backed)
    requires |files| > 0 && Metadata(files, images, b).Some?
    ensures var o := UpscaleIfNeeded(files[0].name, images(files[0].name), b);
            && o.Some?
            && var rest := Metadata(files[1..], images, o.value.backed);
               && rest.Some?
               && Metadata(files, images, b).value.covers
                  == [CoverMeta(o.value.info, files[0].name)] + rest.value.covers
               && Metadata(files, images, b).value.backed == rest.value.backed
  {
  }

  /** An entry is marked changed exactly when its cover needed upscaling. */
  lemma {:induction false} MetadataChanged(files: seq<DirEntry>, images: string -> ImageInfo, b: Backed)
    ensures var r := Metadata(files, images, b);
            r.Some? ==> forall i :: 0 <= i < |files| ==>
                          (r.value.covers[i].info.changed <==> NeedsUpscale(images(files[i].name)))
    decreases |files|
  {
    if |files| > 0 && Metadata(files, images, b).Some? {
      MetadataStep(files, images, b);
      var o := UpscaleIfNeeded(files[0].name, images(files[0].name), b).value;
      MetadataChanged(files[1..], images, o.backed);
      assert forall i :: 1 <= i < |files| ==> files[i] == files[1..][i - 1];
    }
  }

  /** The file names of the entries marked changed. */
  function ChangedNames(covers: seq<CoverMeta>): (ns: set<string>)
    ensures forall i :: 0 <= i < |covers| && covers[i].info.changed ==> covers[i].filename in ns
  {
    if |covers| == 0 then {}
    else (if covers[0].info.changed then {covers[0].filename} else {}) + ChangedNames(covers[1..])
  }

  /** Backups were taken for exactly the covers that changed, never twice
      and never over an existing backup. */
  lemma {:induction false} MetadataBackups(files: seq<DirEntry>, images: string -> ImageInfo,
                                           b: Backed, initial: set<string>)
    requires Fresh(b, initial)
    ensures var r := Metadata(files, images, b);
            r.Some? ==>
              && Fresh(r.value.backed, initial)
              && b.copied <= r.value.backed.copied
              && b.names + ChangedNames(r.value.covers) <= r.value.backed.names
              && forall k :: |b.copied| <= k < |r.value.backed.copied| ==>
                   r.value.backed.copied[k] in ChangedNames(r.value.covers)
    decreases |files|
  {
    if |files| > 0 && Metadata(files, images, b).Some? {
      var name := files[0].name;
      var r := Metadata(files, images, b).value;
      MetadataStep(files, images, b);
      var o := UpscaleIfNeeded(name, images(name), b).value;
      var rest := Metadata(files[1..], images, o.backed).value;
      if NeedsUpscale(images(name)) {
        SmallCoverBackedUp(name, images(name), b);
        BackupKeepsFresh(b, name, initial);
      } else {
        LargeCoverUnchanged(name, images(name), b);
      }
      MetadataBackups(files[1..], images, o.backed, initial);
      assert r.covers[1..] == rest.covers;
      assert ChangedNames(r.covers) == (if o.info.changed then {name} else {}) + ChangedNames(rest.covers);
    }
  }

  /** The metadata lists every image file of the directory, once, ordered by
      name without regard to case. */
  lemma MainOrder(listing: seq<DirEntry>, images: string -> ImageInfo, b: Backed)
    ensures var files := ImageFiles(SortedListing(listing));
            var r := Main(listing, images, b);
            && (forall e :: e in files <==> e in listing && IsImageFile(e))
            && (r.Some? ==> (|r.value.covers| == |files|
                  && forall i, j :: 0 <= i < j < |files| ==>
                       StrLe(Lower(r.value.covers[i].filename), Lower(r.value.covers[j].filename))))
  {
    var sorted := SortedListing(listing);
    var files := ImageFiles(sorted);
    StrLeIsTotalPreorder();
    SortBySorted(listing, (e: DirEntry) => Lower(e.name), StrLe);
    ImageFilesSpec(sorted);
    assert forall e :: e in sorted <==> e in listing by {
      SortByPermutes(listing, (e: DirEntry) => Lower(e.name), StrLe);
      forall e ensures e in sorted <==> e in listing {
        assert e in sorted <==> e in multiset(sorted);
        assert e in listing <==> e in multiset(listing);
      }
    }
    ImageFilesSorted(sorted, (e: DirEntry) => Lower(e.name), StrLe);
  }
}
