/** The cover resizer (resize_covers.py): the save format and encoder
    parameters it picks for a file, the files it skips, the validation it
    runs on what it wrote, and the summary of its report.  Pillow's pixel
    work is left out.  The directory walk, each file's image mode and colour
    profile, and what re-opening the written file yields are parameters. */
module ResizeCovers {
  import opened Wrappers
  import opened Text
  import opened Backups
  import opened Discography

  const TargetWidth := 500
  const TargetHeight := 500
  const OutputFormat := "preserve"
  const JpegQuality := 92
  const JpegSubsampling := 0
  const PngCompressLevel := 6
  const ValidExtensions := [".png", ".jpg", ".jpeg"]
  const CoversName := "covers"
  const BackupDirs := ["_backup_originals", "_backup_resized_originals"]
  const SkippedPrefix := "_backup_originals"
  const MetadataName := "metadata.json"

  // ---------------------------------------------------------------------------
  // os.path.splitext
  // ---------------------------------------------------------------------------

  predicate AllDots(s: string) {
    forall k :: 0 <= k < |s| ==> s[k] == '.'
  }

  /** The extension `os.path.splitext` returns for a bare file name: from
      the last dot, unless only dots come before it. */
  function SplitExt(name: string): (r: string)
    ensures r != "" ==> r[0] == '.' && EndsWith(name, r)
    ensures forall k :: 1 <= k < |r| ==> r[k] != '.'
    ensures r != "" ==> exists k :: 0 <= k < |name| - |r| && name[k] != '.'
    ensures r == "" ==> forall j, k :: 0 <= j < k < |name| && name[j] != '.' ==> name[k] != '.'
  {
    var i := LastDot(name, |name|);
    if i > 0 && !AllDots(name[..i]) then
      assert forall k :: 1 <= k < |name[i..]| ==> name[i..][k] == name[i + k];
      name[i..]
    else
      ""
  }

  /** `splitext` and pathlib's `suffix` agree on every name that neither
      starts nor ends with a dot. */
  lemma SplitExtIsSuffix(name: string)
    requires |name| > 0 && name[0] != '.' && name[|name| - 1] != '.'
    ensures SplitExt(name) == PathSuffix(name)
  {
    var i := LastDot(name, |name|);
    if i > 0 {
      assert name[..i][0] == name[0];
    }
  }

  // ---------------------------------------------------------------------------
  // save_image
  // ---------------------------------------------------------------------------

  /** ICC profile bytes, or `None`; Python treats `None` and `b""` alike. */
  type Profile = Option<seq<int>>

  predicate Truthy(p: Profile) {
    p.Some? && |p.value| > 0
  }

  /** The keyword arguments of `img.save`. */
  datatype SaveParams = SaveParams(optimize: bool, compressLevel: Option<int>,
                                   quality: Option<int>, subsampling: Option<int>,
                                   progressive: bool, iccProfile: Profile)

  /** What is written: the format, the image mode after conversion, and the
      encoder parameters. */
  datatype Saved = Saved(format: string, mode: string, params: SaveParams)

  function IccParam(profile: Profile): Profile {
    if Truthy(profile) then profile else None
  }

  function PngParams(profile: Profile): SaveParams {
    SaveParams(true, Some(PngCompressLevel), None, None, false, IccParam(profile))
  }

  function JpegParams(profile: Profile): SaveParams {
    SaveParams(true, None, Some(JpegQuality), Some(JpegSubsampling), true, IccParam(profile))
  }

  function NoAlpha(mode: string): string {
    if mode == "RGBA" then "RGB" else mode
  }

  /** `save_image` with the output format as a parameter. */
  function SaveImage(outputFormat: string, mode: string, ext: string, profile: Profile): (s: Saved)
    ensures s.format == "PNG" || s.format == "JPEG"
    ensures s.format == "PNG" <==>
              if outputFormat == "preserve" then Lower(ext) == ".png" else Upper(outputFormat) == "PNG"
    ensures s.format == "JPEG" ==> s.mode != "RGBA"
    ensures s.mode == mode || s.mode == "RGB"
    ensures s.params.optimize
    ensures s.params.iccProfile.Some? <==> Truthy(profile)
    ensures s.params.iccProfile.Some? ==> s.params.iccProfile == profile
    ensures s.format == "PNG" ==> s.params.compressLevel == Some(PngCompressLevel) && s.params.quality.None?
    ensures s.format == "JPEG" ==> s.params.quality == Some(JpegQuality)
                                   && s.params.subsampling == Some(JpegSubsampling)
                                   && s.params.progressive && s.params.compressLevel.None?
  {
    if outputFormat == "preserve" then
      if Lower(ext) == ".png" then Saved("PNG", mode, PngParams(profile))
      else Saved("JPEG", NoAlpha(mode), JpegParams(profile))
    else if Upper(outputFormat) == "PNG" then
      Saved("PNG", if mode == "RGB" || mode == "RGBA" then mode else "RGB", PngParams(profile))
    else
      Saved("JPEG", NoAlpha(mode), JpegParams(profile))
  }

  /** With the configured `'preserve'`, the format follows the extension:
      `.png` in any case is PNG, everything else JPEG. */
  lemma PreserveFollowsExtension(mode: string, ext: string, profile: Profile)
    ensures SaveImage(OutputFormat, mode, ext, profile).format
            == (if Lower(ext) == ".png" then "PNG" else "JPEG")
    ensures Lower(ext) == ".png" ==> SaveImage(OutputFormat, mode, ext, profile).mode == mode
  {
  }

  // ---------------------------------------------------------------------------
  // process_file
  // ---------------------------------------------------------------------------

  /** Re-opening the written file: its size, Pillow's format name (the text
      `"None"` when Pillow names none), and whether an ICC profile is
      attached; or the message of the exception it raised. */
  datatype Probe = Loaded(width: nat, height: nat, format: string, iccPresent: bool)
                 | Failed(error: string)

  /** What the script knows about one file besides its name: the image mode
      after colour conversion, the profile passed to `save_image`
      (`icc_bytes or SRGB_BYTES`), and the probe of the written file. */
  datatype FileFacts = FileFacts(mode: string, profile: Profile, probe: Probe)

  /** One entry of the report's `results` (without `size_bytes`). */
  datatype FileReport = FileReport(file: string, originalExt: string, formatSaved: string,
                                   width: Option<nat>, height: Option<nat>,
                                   iccEmbedded: bool, passed: bool, issues: seq<string>)

  function DimensionIssue(w: nat, h: nat): string {
    "Dimension mismatch: got " + NatToString(w) + "x" + NatToString(h)
  }

  function FormatIssue(expected: string, got: string): string {
    "Format mismatch: expected " + expected + ", got " + got
  }

  function ErrorIssue(error: string): string {
    "Validation error: " + error
  }

  /** The issues the validation collects for a file saved as `fmt`. */
  function Issues(fmt: string, probe: Probe): seq<string> {
    match probe
    case Failed(e) => [ErrorIssue(e)]
    case Loaded(w, h, f, _) =>
      (if w != TargetWidth || h != TargetHeight then [DimensionIssue(w, h)] else [])
      + (if fmt == "PNG" && f != "PNG" then [FormatIssue("PNG", f)] else [])
      + (if fmt == "JPEG" && f != "JPEG" then [FormatIssue("JPEG", f)] else [])
  }

  /** A saved file passes exactly when it re-opens at 500x500 in the format
      it was saved in; a wrong size is reported first, then a wrong format,
      and a file that does not open has the exception as its only issue. */
  lemma IssuesSpec(fmt: string, probe: Probe)
    requires fmt == "PNG" || fmt == "JPEG"
    ensures var found := Issues(fmt, probe);
            && (found == [] <==> (probe.Loaded? && probe.width == TargetWidth
                                  && probe.height == TargetHeight && probe.format == fmt))
            && |found| <= 2
            && (probe.Failed? ==> found == [ErrorIssue(probe.error)])
            && (probe.Loaded? && (probe.width != TargetWidth || probe.height != TargetHeight)
                ==> found[0] == DimensionIssue(probe.width, probe.height))
            && (probe.Loaded? && probe.format != fmt ==> found[|found| - 1] == FormatIssue(fmt, probe.format))
  {
  }

  predicate Skipped(rel: string, name: string) {
    StartsWith(rel, SkippedPrefix) || Lower(name) == MetadataName
  }

  /** `process_file(path, rel)` for the file called `name`; `None` when the
      file is skipped. */
  function ProcessFile(rel: string, name: string, facts: FileFacts): (r: Option<FileReport>)
    ensures r.None? <==> Skipped(rel, name)
    ensures r.Some? ==> r.value.file == rel && r.value.originalExt == SplitExt(name)
    ensures r.Some? ==> (r.value.passed <==> r.value.issues == [])
    ensures r.Some? ==> r.value.issues == Issues(r.value.formatSaved, facts.probe)
    ensures r.Some? ==> r.value.formatSaved == (if Lower(SplitExt(name)) == ".png" then "PNG" else "JPEG")
    ensures r.Some? ==> (r.value.width.Some? <==> facts.probe.Loaded?) && (r.value.height.Some? <==> facts.probe.Loaded?)
    ensures r.Some? && facts.probe.Loaded? ==>
              r.value.width == Some(facts.probe.width) && r.value.height == Some(facts.probe.height)
    ensures r.Some? ==> (r.value.iccEmbedded <==> facts.probe.Loaded? && facts.probe.iccPresent)
  {
    if Skipped(rel, name) then None
    else
      var ext := SplitExt(name);
      var fmt := SaveImage(OutputFormat, facts.mode, ext, facts.profile).format;
      var issues := Issues(fmt, facts.probe);
      IssuesSpec(fmt, facts.probe);
      match facts.probe
      case Failed(_) =>
        Some(FileReport(rel, ext, fmt, None, None, false, false, issues))
      case Loaded(w, h, _, icc) =>
        Some(FileReport(rel, ext, fmt, Some(w), Some(h), icc, issues == [], issues))
  }

  /** A processed file passes exactly when its re-opened copy is 500x500 in
      the format it was saved in. */
  lemma ProcessFilePassesIff(rel: string, name: string, facts: FileFacts)
    requires !Skipped(rel, name)
    ensures var r := ProcessFile(rel, name, facts);
            r.Some? && (r.value.passed <==> (facts.probe.Loaded? && facts.probe.width == TargetWidth
                                              && facts.probe.height == TargetHeight
                                              && facts.probe.format == r.value.formatSaved))
  {
    var r := ProcessFile(rel, name, facts);
    IssuesSpec(r.value.formatSaved, facts.probe);
  }

  /** Writing a file and reading back what was written passes validation:
      a probe that sees 500x500 in the saved format reports no issue. */
  lemma FaithfulWritePasses(rel: string, name: string, mode: string, profile: Profile, icc: bool)
    requires !Skipped(rel, name)
    ensures var fmt := SaveImage(OutputFormat, mode, SplitExt(name), profile).format;
            var r := ProcessFile(rel, name, FileFacts(mode, profile, Loaded(TargetWidth, TargetHeight, fmt, icc)));
            r.Some? && r.value.passed && r.value.issues == []
            && r.value.width == Some(TargetWidth) && r.value.height == Some(TargetHeight)
  {
    var fmt := SaveImage(OutputFormat, mode, SplitExt(name), profile).format;
    IssuesSpec(fmt, Loaded(TargetWidth, TargetHeight, fmt, icc));
  }

  // ---------------------------------------------------------------------------
  // The walk and the summary
  // ---------------------------------------------------------------------------

  /** One step of `os.walk(COVERS_DIR)`: the directory, as its path under the
      covers directory, and the names of the files in it. */
  datatype WalkDir = WalkDir(path: seq<string>, files: seq<string>)

  /** `os.path.basename(root)`; the covers directory itself is `covers`. */
  function DirName(d: WalkDir): string {
    if |d.path| == 0 then CoversName else d.path[|d.path| - 1]
  }

  predicate SkippedDir(d: WalkDir) {
    DirName(d) in BackupDirs
  }

  predicate HasValidExtension(name: string) {
    Lower(SplitExt(name)) in ValidExtensions
  }

  /** `os.path.relpath(os.path.join(root, fname), COVERS_DIR)`, with `sep`
      the separator of the platform. */
  function RelPath(d: WalkDir, name: string, sep: char): string {
    Join(d.path + [name], [sep])
  }

  datatype WalkResult = WalkResult(results: seq<FileReport>, backed: Backed)

  /** The inner loop of `main` over the files of one directory. */
  function WalkFiles(d: WalkDir, files: seq<string>, sep: char, facts: string -> FileFacts,
                     b: Backed): (w: WalkResult)
    ensures |w.results| <= |files|
    decreases |files|
  {
    if |files| == 0 then WalkResult([], b)
    else
      var name := files[0];
      var rel := RelPath(d, name, sep);
      if !HasValidExtension(name) || Skipped(rel, name) then WalkFiles(d, files[1..], sep, facts, b)
      else
        var r := ProcessFile(rel, name, facts(rel));
        var rest := WalkFiles(d, files[1..], sep, facts, Backup(b, name));
        WalkResult([r.value] + rest.results, rest.backed)
  }

  /** The outer loop of `main` over the directories `os.walk` yields. */
  function Walk(dirs: seq<WalkDir>, sep: char, facts: string -> FileFacts, b: Backed): (w: WalkResult)
    decreases |dirs|
  {
    if |dirs| == 0 then WalkResult([], b)
    else if SkippedDir(dirs[0]) then Walk(dirs[1..], sep, facts, b)
    else
      var here := WalkFiles(dirs[0], dirs[0].files, sep, facts, b);
      var rest := Walk(dirs[1..], sep, facts, here.backed);
      WalkResult(here.results + rest.results, rest.backed)
  }

  /** Every reported file kept its validation invariant, and none of them
      lies under a `_backup_originals` path. */
  predicate WellFormedResults(results: seq<FileReport>) {
    forall i :: 0 <= i < |results| ==>
      (results[i].passed <==> results[i].issues == []) && !StartsWith(results[i].file, SkippedPrefix)
  }

  lemma {:induction false} WalkFilesResults(d: WalkDir, files: seq<string>, sep: char,
                                            facts: string -> FileFacts, b: Backed, initial: set<string>)
    requires Fresh(b, initial)
    ensures var w := WalkFiles(d, files, sep, facts, b);
            WellFormedResults(w.results) && Fresh(w.backed, initial)
    decreases |files|
  {
    if |files| > 0 {
      var name := files[0];
      var rel := RelPath(d, name, sep);
      if !HasValidExtension(name) || Skipped(rel, name) {
        WalkFilesResults(d, files[1..], sep, facts, b, initial);
      } else {
        var r := ProcessFile(rel, name, facts(rel));
        var rest := WalkFiles(d, files[1..], sep, facts, Backup(b, name));
        BackupKeepsFresh(b, name, initial);
        WalkFilesResults(d, files[1..], sep, facts, Backup(b, name), initial);
        assert WalkFiles(d, files, sep, facts, b) == WalkResult([r.value] + rest.results, rest.backed);
        ConsWellFormed(r.value, rest.results);
      }
    }
  }

  lemma ConsWellFormed(r: FileReport, rest: seq<FileReport>)
    requires (r.passed <==> r.issues == []) && !StartsWith(r.file, SkippedPrefix)
    requires WellFormedResults(rest)
    ensures WellFormedResults([r] + rest)
  {
    forall i | 0 <= i < |[r] + rest|
      ensures var x := ([r] + rest)[i]; (x.passed <==> x.issues == []) && !StartsWith(x.file, SkippedPrefix)
    {
      if i > 0 {
        assert ([r] + rest)[i] == rest[i - 1];
      }
    }
  }

  /** The walk reports only well-formed results and never overwrites a
      backup. */
  lemma {:induction false} WalkResults(dirs: seq<WalkDir>, sep: char, facts: string -> FileFacts,
                                       b: Backed, initial: set<string>)
    requires Fresh(b, initial)
    ensures var w := Walk(dirs, sep, facts, b);
            WellFormedResults(w.results) && Fresh(w.backed, initial)
    decreases |dirs|
  {
    if |dirs| > 0 {
      if SkippedDir(dirs[0]) {
        WalkResults(dirs[1..], sep, facts, b, initial);
      } else {
        var here := WalkFiles(dirs[0], dirs[0].files, sep, facts, b);
        WalkFilesResults(dirs[0], dirs[0].files, sep, facts, b, initial);
        WalkResults(dirs[1..], sep, facts, here.backed, initial);
      }
    }
  }

  /** A file directly inside a backup-named directory is never reported. */
  lemma {:induction false} SkippedDirNotReported(dirs: seq<WalkDir>, sep: char, facts: string -> FileFacts,
                                                 b: Backed, i: nat)
    requires i < |dirs| && SkippedDir(dirs[i])
    ensures Walk(dirs, sep, facts, b) == Walk(dirs[..i] + dirs[i + 1..], sep, facts, b)
    decreases i
  {
    if i == 0 {
      assert dirs[..0] + dirs[1..] == dirs[1..];
    } else {
      var d := dirs[..i] + dirs[i + 1..];
      assert d[0] == dirs[0] && d[1..] == dirs[1..][..i - 1] + dirs[1..][i..];
      if SkippedDir(dirs[0]) {
        SkippedDirNotReported(dirs[1..], sep, facts, b, i - 1);
      } else {
        var here := WalkFiles(dirs[0], dirs[0].files, sep, facts, b);
        SkippedDirNotReported(dirs[1..], sep, facts, here.backed, i - 1);
      }
    }
  }

  datatype Summary = Summary(total: nat, passed: nat, failed: nat)

  function CountPassed(results: seq<FileReport>): (n: nat)
    ensures n <= |results|
  {
    if |results| == 0 then 0
    else (if results[0].passed then 1 else 0) + CountPassed(results[1..])
  }

  function CountFailed(results: seq<FileReport>): (n: nat)
    ensures n <= |results|
  {
    if |results| == 0 then 0
    else (if results[0].passed then 0 else 1) + CountFailed(results[1..])
  }

  /** `report['summary']`. */
  function Summarize(results: seq<FileReport>): Summary {
    Summary(|results|, CountPassed(results), CountFailed(results))
  }

  /** Every result is counted once: as passed or as failed. */
  lemma {:induction false} SummaryAddsUp(results: seq<FileReport>)
    ensures var s := Summarize(results);
            s.total == |results| && s.passed + s.failed == s.total
            && (s.failed == 0 <==> forall i :: 0 <= i < |results| ==> results[i].passed)
    decreases |results|
  {
    if |results| > 0 {
      SummaryAddsUp(results[1..]);
      assert forall i :: 1 <= i < |results| ==> results[i] == results[1..][i - 1];
    }
  }
}
