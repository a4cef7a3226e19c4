# MoneyPrinter G site scripts — a Dafny model

MoneyPrinter G is an artist's website. A handful of Python scripts and one
browser script maintain it. This project models their logic and proves
properties of it:

- **verify_and_update_links.py** (modules `LinkVerifier`, `LinkFile`).
  - Parses the hand-kept link file into (title, URL) pairs.
  - Repairs doubled YouTube URLs.
  - Adds the Apple Music and Spotify artist profiles when no title names them.
  - Checks each URL with HEAD and falls back to GET.
  - Writes the file back as title / final URL / status blocks.
- **build_discography.py** (module `Discography`).
  - `norm` and `title_from_filename`.
  - Extracts a YouTube publish date from a watch page.
  - Builds the link map from `links.json`.
  - Builds one track per cover image.
  - Sorts the tracks chronologically, with undated tracks last.
- **Moneyprinterg/script.js** (module `Site`).
  - The discography grid's link lookup and its search fallback.
  - The predictive search box: filtering, rendering at most six suggestions, and the ArrowDown / ArrowUp / Enter / Escape / click handling as a state machine.
- **build/build.py** (module `SiteBuild`).
  - Splits the project document into Markdown sections.
  - Extracts the team configuration block and scrapes its agent and workflow lists.
  - Runs the quality checks over the site files, data files and covers.
- **resize_covers.py** (module `ResizeCovers`).
  - Chooses the save format and encoder parameters.
  - Decides which files are skipped.
  - Validates the re-opened file.
  - Walks the covers tree.
  - Computes the report summary.
- **process_covers.py** (module `ProcessCovers`).
  - Decides whether a cover is upscaled to at least 1000 pixels a side or only re-saved.
  - Computes the new dimensions, the save keyword arguments, the reported format, the backup, and the metadata list.

Shared pieces:

- `Text`: the string built-ins the scripts rely on.
  - Python's `lower`, `strip`, `splitlines` and `find`.
  - JavaScript's `trim`.
  - Decimal printing.
- `Sorting`: a stable insertion sort, standing for Python's `sorted` and `list.sort`.
- `UrlEncoding`: `requests.utils.quote`, `encodeURIComponent` and their inverse.
- `Backups`: "copy the original unless a backup of that name exists".
- `Wrappers`: `Option`.

The world outside the scripts becomes parameters:

- HTTP responses and exceptions: `Attempt`, `Network`, `Fetcher`.
- Directory listings: `DirEntry`, `WalkDir`.
- What Pillow reports about an image: `ImageInfo`, `FileFacts`, `Probe`.
- Which files exist and parse: `Oracle`.

## Model

| member | source | states |
|---|---|---|
| Text.Strip | verify_and_update_links.py:16 | The result has no leading or trailing whitespace; it is empty exactly when the input is all whitespace; an input that is already trimmed is returned unchanged |
| Text.StripIsEdgeTrim | verify_and_update_links.py:16 | The stripped line is a slice of the line with only whitespace cut from its two ends |
| Text.EdgeTrimIsStrip | verify_and_update_links.py:16 | Any slice with only whitespace cut from its ends, and no whitespace at its own ends, is the stripped line: together with the ends and the slice property, this pins the result |
| Text.SplitLines | verify_and_update_links.py:16 | No line contains a line boundary, and only the empty text has no lines |
| Text.SplitTerminated | verify_and_update_links.py:84-85 | Splitting lines that each end in "\n" gives back exactly those lines |
| Text.StripNewlineEnded | verify_and_update_links.py:85 | Stripping a text that ends in "\n" and has no other edge whitespace, then adding "\n", gives the text back |
| Text.Find | build/build.py:57-58 | The result is -1 exactly when the pattern does not occur at or after the start; otherwise it is the first occurrence there |
| Text.ContainsIff | verify_and_update_links.py:46 | Substring membership (`in`) holds exactly when the pattern occurs at some position |
| Text.JsTrim | Moneyprinterg/script.js:448 | The result has no JavaScript whitespace at either end, is empty exactly when the input is all whitespace, and an input that is already trimmed is returned unchanged |
| Text.JsTrimIsEdgeTrim | Moneyprinterg/script.js:448 | The trimmed query is a slice of the box's value with only JavaScript whitespace cut from its two ends |
| Text.LowerNoCapital | build_discography.py:18 | A lower-cased string holds no ASCII capital |
| Text.LowerFixedIff | build_discography.py:18 | A string is its own lower-case form exactly when it holds no ASCII capital |
| Text.LowerIdempotent | build_discography.py:18 | Lower-casing twice is lower-casing once |
| Sorting.StrLeIsTotalPreorder | build_discography.py:83 | String comparison is total and transitive |
| Sorting.SortByPermutes | build_discography.py:83 | Sorting returns a permutation of its input |
| Sorting.SortBySorted | build_discography.py:83 | Under a total preorder, the sorted list is ordered by key |
| Sorting.SortByStable | build_discography.py:83 | Elements with equal keys keep their relative order (stability of `list.sort`) |
| Sorting.SortBySortedIsIdentity | build_discography.py:83 | An already sorted list is returned unchanged |
| Sorting.SortByIdempotent | build_discography.py:83 | Sorting twice is the same as sorting once |
| UrlEncoding.Escape | build_discography.py:69-70 | A byte is written as "%" plus two hex digits, and those digits denote the byte |
| UrlEncoding.QuoteRoundTrip | build_discography.py:69-70 | Percent-decoding `quote(s)` gives back the UTF-8 bytes of `s` |
| UrlEncoding.EncodeUriComponentRoundTrip | Moneyprinterg/script.js:128 | Percent-decoding `encodeURIComponent(s)` gives back the UTF-8 bytes of `s` |
| UrlEncoding.EncodeAlphabet | build_discography.py:69-70 | An encoded string contains only safe characters, "%" and upper-case hex digits |
| UrlEncoding.EncodeIdentity | build_discography.py:69-70 | Encoding leaves a string unchanged exactly when all of its characters are safe |
| Backups.Backup | process_covers.py:42-44 | After a backup the name is backed up, and at most one copy was made |
| Backups.BackupKeepsFresh | resize_covers.py:157-159 | Copies go only to names that had no backup, never twice, and the backed-up names are the initial ones plus the copies |
| LinkVerifier.RepairUrl | verify_and_update_links.py:24-27 | The repaired URL is a prefix of the line. A URL with at most one `https://www.youtube.com` is kept whole. Otherwise it is cut before the second occurrence and keeps exactly one |
| LinkVerifier.NextNonEmpty | verify_and_update_links.py:29-35 | The title search stops at the first non-empty line after the URL, or at the end when every remaining line is empty |
| LinkVerifier.Scan | verify_and_update_links.py:19-44 | Each hit is a line starting with `http`, titled by the first non-empty line after it. Hits come in strictly increasing order and never overlap. Only the last hit can be untitled. Text made only of blank lines gives no hit |
| LinkVerifier.ScanSkips | verify_and_update_links.py:43-44 | A line that does not start with `http` contributes nothing |
| LinkVerifier.ScanTakesTitle | verify_and_update_links.py:29-38 | After a URL line with a title, scanning resumes right after the title line |
| LinkVerifier.ScanCoversUrlLines | verify_and_update_links.py:19-44 | Every URL line is either read as a URL or consumed as the title of an earlier URL |
| LinkVerifier.ScannedPairs | verify_and_update_links.py:19-44 | Each pair's URL is the repaired URL line, which starts with `http`. Its title is the next non-empty line, or "Untitled" for the last URL only |
| LinkVerifier.SearchProfileSpec | verify_and_update_links.py:48-52 | The profile search finds nothing exactly when no prefix is followed by a non-space character. Otherwise it returns the whole non-space run at the first such position |
| LinkVerifier.AppendProfileSpec | verify_and_update_links.py:46-54 | A profile pair is appended exactly when the marker is in the text, no title names the platform, and a profile link is found. It carries that link |
| LinkVerifier.ParseLinks | verify_and_update_links.py:15-55 | The scanned pairs come first, unchanged. At most two profile pairs follow, and the Apple Music one comes before the Spotify one |
| LinkVerifier.ProfilePairs | verify_and_update_links.py:46-54 | The number of pairs is the scanned count plus one for each platform whose guard holds, and each added pair carries its platform's first profile link |
| LinkVerifier.Classify | verify_and_update_links.py:64-68 | ok holds exactly for a 2xx status. A raised request gives no status, keeps the original URL and records the error |
| LinkVerifier.CheckUrl | verify_and_update_links.py:58-68 | A HEAD status of 400 or more falls back to GET. There is an error exactly when there is no status. An error means not ok and the final URL is the requested one |
| LinkVerifier.CheckAll | verify_and_update_links.py:75-78 | One result per pair, in order, keeping title and URL, ok exactly for 2xx statuses |
| LinkVerifier.StatusLineOk | verify_and_update_links.py:83 | The status line reads "Status: OK" exactly when the check succeeded |
| LinkVerifier.StatusLineShape | verify_and_update_links.py:83-84 | A status line is one trimmed, non-empty line that never starts with `http` |
| LinkFile.JoinTerminatedBlocks | verify_and_update_links.py:84-85 | Joining "\n"-terminated blocks with "\n" writes the blocks' lines with one empty line between blocks |
| LinkFile.ReadBack | verify_and_update_links.py:16 | A file written from trimmed lines, not starting or ending with an empty line, is read back as exactly those lines |
| LinkFile.WrittenLines | verify_and_update_links.py:82-85 | Reading the written file back gives each entry's three lines, with one empty line between entries |
| LinkFile.RereadAsWritten | verify_and_update_links.py:82-84 | When the file is written as title / URL / status and parsed again, each URL is paired with its "Status: …" line instead of its title |
| LinkFile.RereadFixed | verify_and_update_links.py:82-85 | When the file is written URL first, parsing it again pairs each final URL with its own title, in order |
| LinkFile.RereadFixedIdentity | verify_and_update_links.py:24-27 | With the URL-first layout, a re-read returns exactly the written (title, final URL) pairs whenever no URL holds a doubled YouTube prefix |
| Discography.EndMatchSpec | build_discography.py:22 | An end-anchored alternation matches exactly when some alternative ends the string, and what it removes is that alternative |
| Discography.PyNorm | build_discography.py:17-18 | A key holds only lower-case ASCII letters and digits |
| Discography.PyNormIdempotent | build_discography.py:17-18 | Normalising a key again changes nothing |
| Discography.LowerTitleCase | build_discography.py:25 | Title-casing changes a string only in case |
| Discography.TitleCaseIdempotent | build_discography.py:25 | Title-casing a title again changes nothing |
| Discography.TitleFromFilenameSpec | build_discography.py:21-25 | A title has no underscore. Exactly the first character of each of its words is upper-cased from the base name with underscores turned to spaces, and every other character is the base name's own, so "ab.png" gives "Ab" |
| Discography.AsWrittenCoverKeyShape | build_discography.py:60 | As written, every `.png` cover gets as its key the lower-cased letters and digits of its base name with "png" still attached |
| Discography.AsWrittenCoverKeyMisses | build_discography.py:60 | As written, every `.png` cover's key is strictly longer than the key of its own title, so the lookup in the link map keyed by title never finds it |
| Discography.AsWrittenCoverKeyExample | build_discography.py:60 | Concretely, the cover "a.png" gets the key "apng", while its own title "A" has the key "a" |
| Discography.CoverKeyMatchesTitle | build_discography.py:59-61 | The corrected cover key equals the key of the cover's display title, for every file name |
| Discography.QuotedAfterSpec | build_discography.py:35-37 | The lazy `content="(.*?)"` search returns the value at the leftmost closed occurrence of the prefix, with no closed occurrence before it, or nothing when none exists |
| Discography.MetaDateSpec | build_discography.py:35-37 | A meta date is found exactly when some occurrence of the prefix is closed by a quote on the same line, and it is the value of the leftmost such tag |
| Discography.JsonDate | build_discography.py:39-41 | The JSON date is found exactly when some `"publishDate":"` is followed by an ISO date and a quote, and it is the date at the leftmost such match. What is returned is a 10-character ISO date |
| Discography.PublishDate | build_discography.py:28-44 | No page or an error status gives no date. The meta tag is preferred, and the JSON field is used only when the meta tag is absent |
| Discography.LinkMap | build_discography.py:49-54 | Every URL in the link map is non-empty |
| Discography.LinkMapKeys | build_discography.py:49-54 | A key is in the link map exactly when some usable entry's title normalises to it |
| Discography.LinkMapSpec | build_discography.py:49-54 | The last usable entry with a key wins, and `final_url` is preferred over `url` |
| Discography.PathSuffixSpec | build_discography.py:58 | A suffix is empty or is a dot followed by at least one character ending the name, shorter than the name, and with no dot after its own. It is non-empty exactly when the last dot of the name is neither its first nor its last character |
| Discography.MakeTrack | build_discography.py:59-79 | As written: the track's title is the file's title and its cover path is under `covers/`. It has a YouTube link exactly when `norm` of the whole file name, extension included, is in the link map, and then it is the mapped URL. Its date is the publish date of a non-empty link's page, and otherwise none. Both search links end in the quoted "MoneyPrinter G " plus the title |
| Discography.MakeTrackFixed | build_discography.py:59-79 | The corrected track: the same title, cover, date and search links, with the link looked up under the cover key that drops the extension |
| Discography.SearchTermsDecode | build_discography.py:69-70 | Under either lookup key, the query of the Spotify and Apple search links decodes back to the UTF-8 bytes of "MoneyPrinter G " followed by the track's title |
| Discography.FixedTrackLinksByTitle | build_discography.py:59-61 | Corrected, a track has a YouTube link exactly when the link map has one under the key of its own display title |
| Discography.AsWrittenTrackLosesLink | build_discography.py:60-61 | As written, the cover "a.png" gets no YouTube link from a links file whose one entry is titled "A", its own display title |
| Discography.FixedTrackFindsLink | build_discography.py:60-61 | Corrected, the same cover gets that entry's URL |
| Discography.UnsortedTracksCount | build_discography.py:56-80 | One track per cover file, in listing order |
| Discography.CoverFilesSpec | build_discography.py:57-58 | An entry is kept exactly when it is in the listing and is a file with an image suffix whose name does not start with "_" |
| Discography.Build | build_discography.py:47-83 | As written: the built list is a permutation of the tracks made, under `norm` of the whole file name, for the cover files in listing order |
| Discography.BuildFixed | build_discography.py:47-83 | Corrected: the same with the cover key that drops the extension |
| Discography.KeyLeIsTotalPreorder | build_discography.py:83 | The `(date is None, date or "9999-12-31")` key order is a total preorder |
| Discography.BuildOrder | build_discography.py:82-83 | Under either cover key, dated tracks come before undated ones, dated tracks are in ascending date order, and tracks with equal keys keep their listing order |
| Discography.BuildSortIdempotent | build_discography.py:82-83 | Under either cover key, sorting the built list again changes nothing |
| Site.JsNorm | Moneyprinterg/script.js:102-105 | A key holds only lower-case ASCII letters and digits |
| Site.ExtensionOrder | Moneyprinterg/script.js:103 | The site's extension order (png, jpeg, jpg) matches the same extension as the build's order (png, jpg, jpeg) |
| Site.CutEndAgree | Moneyprinterg/script.js:103-104 | On a single line, JavaScript's and Python's end-anchored removals agree |
| Site.JsNormIsCoverKey | Moneyprinterg/script.js:102-105 | The site's `norm` of a cover file name is the corrected cover key |
| Site.TitleFromFileIsBuildTitle | Moneyprinterg/script.js:107-112 | The site's title for a cover equals the title the discography build gives it |
| Site.NormsDiffer | Moneyprinterg/script.js:102-105 | The site's and the build's `norm` differ on "a.png" ("a" against "apng") |
| Site.JsNormIdempotent | Moneyprinterg/script.js:102-105 | Normalising a key again changes nothing |
| Site.GridItems | Moneyprinterg/script.js:125-135 | One card per file, in order, with the file's title and cover path |
| Site.GridLinkFound | Moneyprinterg/script.js:118-127 | A card links to the final URL of the last entry whose title has the file's key |
| Site.GridLinkFallback | Moneyprinterg/script.js:128-132 | Without a matching entry, the card links to the YouTube search, whose query decodes to "MoneyPrinter G " plus the title |
| Site.JsOr | Moneyprinterg/script.js:423-424 | A JavaScript `or` gives its first operand when that is a non-empty string, and the fallback otherwise |
| Site.Dataset | Moneyprinterg/script.js:423-425 | The dataset is the tracks then the links, labelled by their titles. A track's URL is its YouTube link when that is a non-empty string, else "#". A link's URL is its final URL, else its URL, else "#". No URL is empty |
| Site.Filter | Moneyprinterg/script.js:450 | The filtered list holds exactly the entries whose label contains the query, ignoring case |
| Site.FilterConcat | Moneyprinterg/script.js:425-450 | Filtering distributes over the concatenation of tracks and links |
| Site.Take | Moneyprinterg/script.js:435 | `slice(0, n)` keeps the first `n` items, or all of them when there are fewer |
| Site.Render | Moneyprinterg/script.js:432-444 | At most six items are rendered, and the list is shown exactly when there is something to show |
| Site.Hide | Moneyprinterg/script.js:445 | Hiding clears the selection and keeps the rendered items |
| Site.OnInput | Moneyprinterg/script.js:447-452 | Typing resets the selection. A blank query hides the list |
| Site.OnInputShows | Moneyprinterg/script.js:447-452 | For a non-blank query the list is shown exactly when some entry matches. It renders the first six matches in dataset order, each opening its entry's URL |
| Site.FilterNonEmpty | Moneyprinterg/script.js:450-451 | The filtered list is non-empty exactly when some entry matches |
| Site.FindUrl | Moneyprinterg/script.js:455 | `dataset.find(label ===)` finds a URL exactly when some entry has that label, and the URL is that of the first such entry |
| Site.FindUrlFirst | Moneyprinterg/script.js:455 | The URL found for a label is the URL of the first entry carrying it |
| Site.Relabel | Moneyprinterg/script.js:455-456 | Re-rendering keeps the number and captions of the displayed items, and gives each the URL found for its caption |
| Site.OnArrowDown | Moneyprinterg/script.js:455 | ArrowDown moves the selection down by one, stopping at the last item. It re-renders the current items (at most six), each with the URL found for its caption, and the list is displayed exactly when it has items |
| Site.OnArrowUp | Moneyprinterg/script.js:456 | ArrowUp moves the selection up by one, stopping at the first item, and re-renders and re-displays the list as ArrowDown does |
| Site.ArrowDownReshows | Moneyprinterg/script.js:443-455 | After Escape hides a non-empty list, ArrowDown displays it again with the first item selected |
| Site.ArrowThenClickOpensFirst | Moneyprinterg/script.js:438-456 | After an arrow key, clicking an item opens the URL of the first dataset entry with the item's caption |
| Site.FindMatchIsFirstFiltered | Moneyprinterg/script.js:460 | Enter opens the first entry the search filter would list for the lower-cased label: an exact match is also a containment match |
| Site.OnEnter | Moneyprinterg/script.js:457-462 | Enter always hides the list. It opens the URL of the first entry the search filter lists for the lower-cased selected caption, or for the box's raw value when nothing is selected, and opens nothing when that filter is empty |
| Site.RunValid | Moneyprinterg/script.js:430-467 | Any sequence of events keeps the widget's invariant: at most six items, a shown list is non-empty, and the index is -1, within range, or 0 when there are no items (where ArrowUp leaves it) |
| Site.InitialValid | Moneyprinterg/script.js:430 | The initial widget satisfies the invariant |
| SiteBuild.ParseHeading | build/build.py:31 | A line yields a heading exactly when it starts with one to six `#` followed by whitespace |
| SiteBuild.HeadingsSpec | build/build.py:30-38 | The heading positions are exactly the heading lines, in ascending order |
| SiteBuild.SectionizeSpec | build/build.py:28-40 | There is one section per heading, titled by it, holding every line up to the next heading or the end |
| SiteBuild.SectionCounts | build/build.py:30-47 | `section_count` is the number of heading lines, and no content line is a heading |
| SiteBuild.ParseSections | build/build.py:28-40 | The loop's sections are one per heading, each running to the next heading |
| SiteBuild.ParseProjectDoc | build/build.py:23-47 | A missing document reports no sections. Otherwise the sections are those of its lines |
| SiteBuild.TaggedBlock | build/build.py:55-61 | A tagged block exists exactly when both tags occur and the first end tag follows the first start tag |
| SiteBuild.TaggedBlockBetweenTags | build/build.py:57-61 | The tagged block is the stripped text between the first start tag and the first end tag |
| SiteBuild.BundleAtIff | build/build.py:64 | Checking the earliest `agents:` and `workflows:` decides whether the bundle pattern matches at a position |
| SiteBuild.FirstBundle | build/build.py:64 | The search returns the first position where the bundle pattern matches, or nothing when it matches nowhere |
| SiteBuild.ConfigBlock | build/build.py:59-68 | A non-empty tagged block is used. Otherwise the fallback is used. The result is never empty |
| SiteBuild.FallbackBlockShape | build/build.py:63-66 | The fallback block runs from the first bundle match to the end of the text |
| SiteBuild.BulletItemShape | build/build.py:85 | An item is the stripped line without its leading dashes and spaces |
| SiteBuild.YamlItemsAreItems | build/build.py:83-88 | Every `.yaml` bullet item is also a bullet item |
| SiteBuild.WorkflowsAreAgents | build/build.py:83-88 | When the block mentions `agents:`, every scraped workflow is also a scraped agent |
| SiteBuild.ExtractTeamConfig | build/build.py:50-68 | A missing file, an unextracted block and an extracted block are told apart, and an extracted block is non-empty |
| SiteBuild.SiteIssues | build/build.py:99-102 | There is no issue exactly when every site file exists |
| SiteBuild.DataIssue | build/build.py:105-112 | A data file has no issue exactly when it parses. The message names the file and, for parse failures, the error |
| SiteBuild.DataIssues | build/build.py:104-112 | There is no data issue exactly when every data file parses |
| SiteBuild.CoverIssues | build/build.py:114-121 | There is no cover issue exactly when the covers directory exists and holds an image |
| SiteBuild.QualityChecks | build/build.py:96-122 | The checks report nothing exactly when every check passes, and at most nine issues |
| ResizeCovers.SplitExt | resize_covers.py:150 | The extension is empty or starts at the last dot and ends the name. Leading dots never start one |
| ResizeCovers.SplitExtIsSuffix | resize_covers.py:150 | `splitext` and pathlib's `suffix` agree on names that neither start nor end with a dot |
| ResizeCovers.SaveImage | resize_covers.py:93-145 | The format is PNG or JPEG, and JPEG never keeps alpha. The colour profile is embedded exactly when one is given. PNG uses compress level 6 and JPEG quality 92 |
| ResizeCovers.PreserveFollowsExtension | resize_covers.py:98-120 | In preserve mode a `.png` file is saved as PNG in its own mode and anything else as JPEG |
| ResizeCovers.IssuesSpec | resize_covers.py:170-191 | A saved file passes exactly when it re-opens at 500x500 in the saved format. Dimension issues come before format issues. An exception is the only issue |
| ResizeCovers.ProcessFile | resize_covers.py:148-203 | Backups and metadata.json are skipped. Otherwise the report keeps the path and extension, and its issues are those of the re-opened file against the saved format. It passes exactly when it has no issue. It records the re-opened width and height exactly when the file re-opened, and an embedded profile exactly when the re-opened file has one |
| ResizeCovers.ProcessFilePassesIff | resize_covers.py:169-191 | A processed file passes exactly when it re-opens at 500x500 in the format it was saved in |
| ResizeCovers.FaithfulWritePasses | resize_covers.py:169-191 | A write that re-opens at 500x500 in the saved format passes validation |
| ResizeCovers.WalkResults | resize_covers.py:222-233 | Every reported file keeps the passed-iff-no-issues invariant and lies outside `_backup_originals`, and no backup is overwritten |
| ResizeCovers.SkippedDirNotReported | resize_covers.py:223-225 | A backup-named directory contributes nothing to the report |
| ResizeCovers.SummaryAddsUp | resize_covers.py:236-240 | Passed and failed add up to the total, and nothing failed exactly when every result passed |
| ProcessCovers.Round | process_covers.py:38-39 | Rounding goes to an integer within one half, and to the even one on a tie |
| ProcessCovers.Kwargs | process_covers.py:28-32 | JPEG parameters (quality 85, subsampling 0) are used exactly for JPEG-detected or `.jpg` / `.jpeg` files, and every save optimises |
| ProcessCovers.Scale | process_covers.py:37 | The scale is the larger of the two ratios |
| ProcessCovers.UpscaleIfNeeded | process_covers.py:18-63 | The call fails exactly for an undersized image with a zero side. A cover is marked changed exactly when it needed upscaling |
| ProcessCovers.UpscaledSides | process_covers.py:36-39 | Both scaled sides reach 1000, and the shorter side lands on exactly 1000 |
| ProcessCovers.LargeCoverUnchanged | process_covers.py:26-34 | A cover of at least 1000x1000 is re-saved unchanged in size, with no backup taken |
| ProcessCovers.SmallCoverUpscaled | process_covers.py:36-39 | A small cover is marked changed and reaches at least 1000 on both sides, with the shorter side exactly 1000 |
| ProcessCovers.SmallCoverNear | process_covers.py:37-39 | Each new side is within half a pixel of the exact scaled length |
| ProcessCovers.SmallCoverBackedUp | process_covers.py:41-62 | The original is backed up unless a backup of that name exists. The reported format falls back to the suffix when none was detected |
| ProcessCovers.ImageFilesSpec | process_covers.py:69-70 | The image files are exactly the listing's files with an image suffix |
| ProcessCovers.ImageFilesSorted | process_covers.py:69-70 | Filtering keeps a sorted listing sorted |
| ProcessCovers.MetadataFails | process_covers.py:66-73 | The run fails exactly when some image needs upscaling and has a zero side |
| ProcessCovers.MetadataChanged | process_covers.py:66-73 | Each metadata entry is marked changed exactly when its cover needed upscaling |
| ProcessCovers.MetadataBackups | process_covers.py:41-44 | Backups are taken only for covers that changed, never twice and never over an existing backup |
| ProcessCovers.MainOrder | process_covers.py:69-73 | The metadata lists every image file once, in name order ignoring case |

## Left out

- Reading and writing files, HTTP requests, the clock (`updatedAt`, `run_at`) and `print`. They become parameters or are dropped. The JSON documents are records, and `json.dumps` formatting is not modelled.
- Pillow's pixel work:
  - `ImageOps.fit`, `resize`, LANCZOS resampling and `im.save`;
  - `convert_to_srgb` and `get_srgb_profile_bytes`.

  The image mode and colour profile handed to `save_image`, and the probe of the re-opened file, are inputs (`FileFacts`).
- Runs that abort. An exception outside a `try` ends a script before it writes its report:
  - resize_covers.py: `copy2` (line 159), `load_image` (162), `save_image` (167) and `getsize` (202);
  - process_covers.py: `Image.open` (line 19), `copy2` (44) and the saves (33, 55);
  - build/build.py: `iterdir` (line 119) when `covers` exists but is a file.

  The image facts and directory listings the model takes are total, so every modelled run completes. The one modelled failure is process_covers.py's zero-sized image.
- A click on a suggestion (`ClickItem` in `Site.Step`) is modelled only while the list is displayed, because the DOM delivers no click to a hidden item.
- `size_bytes` in the resize report, because it comes from the file system.
- build.py's `ensure_dirs`, `copy_to_dist` and the rest of `main`, because they only copy files. The docs and config outputs of `parse_project_doc` and `extract_team_config` are not written either.
- SiteBuild.ExtractTeamConfig: the pyyaml branch is not modelled, because YAML parsing is not part of this model. The model takes the scraping fallback, which is what runs when pyyaml is missing or fails. Its contract relates the block to the tags and the fallback pattern. It does not restate the scraped lists, which `BulletItemShape` and `WorkflowsAreAgents` describe.
- The DOM:
  - element creation;
  - `aria-selected`;
  - `preventDefault`;
  - the fetch promises (the dataset is given);
  - the other parts of script.js (menu, player, events page).
- Site.OnInput: when `list` is absent the handlers do nothing. The model assumes the suggestion list exists.
- Python's `str.lower` / `str.upper`, `\w`, `\b` and `\d` are modelled over ASCII only. Case mapping and word characters outside ASCII are left out.
- Python's and JavaScript's whitespace sets are modelled by code point. JavaScript strings are modelled as sequences of code points, not UTF-16 units.
- `sorted(COVERS_DIR.iterdir())` is modelled as a case-insensitive name order, as on the Windows paths the scripts use. Exact ordering of `Path` objects is left to the platform.
- `os.walk`'s traversal order and the path separator are parameters (`WalkDir`, `sep`).
- ProcessCovers.Round: sizes are computed over exact reals. Floating-point error in `MIN_SIZE / w` and `w * scale` is not modelled.
- LinkVerifier.CheckUrl: the `status == 405` test is subsumed by `>= 400`. The exception's text is a parameter. Timeouts and redirect following are the network's business.
- LinkVerifier.SearchProfileSpec: the regex `(https://music\.apple\.com/\S+)` is modelled as a scan for the literal prefix followed by a maximal run of non-space characters.
- Site.GridLinkFound: the link map is a plain object there. A key such as "constructor" would find an inherited property. Objects are modelled as maps without a prototype.
- Discography.PublishDate: an exception in `session.get` and a page are told apart by the fetcher (`None`). Decoding of the response body is not modelled.
- The grid's hard-coded list of cover files (script.js:81-100) is a parameter of `Site.GridItems`, so the grid is modelled for any file list.
- The hard-coded `hyperfollow` URL and the `credits` block of each track are constants and are not modelled.

## Findings

| source | as written | input that shows it | evidently intended | confidence | as-written member | corrected member |
|---|---|---|---|---|---|---|
| verify_and_update_links.py:82-84 | `main` writes each entry as title, final URL, status. `parse_links` (lines 29-38) takes the first non-empty line after a URL as its title, and the script reads back the file it wrote | One record titled "Song" at `https://x` that checked OK. The second run pairs `https://x` with "Status: OK" | A re-run reads back the same (title, URL) pairs, which holds when the URL line is written before the title | not executed | LinkFile.RereadAsWritten | LinkFile.RereadFixed |
| build_discography.py:60 | `key = norm(p.name)` keeps the file extension in the key, while the link map is keyed by `norm(title)` | Any `.png` cover, e.g. "a.png": its key is "apng", longer than "a", the key of its own title "A", so the track gets no YouTube link or date (`MakeTrack` and `Build` model this; `AsWrittenTrackLosesLink` shows it for "a.png" and a link titled "A") | The key of the cover's title, with the image extension dropped, as the site script's `norm` does (`MakeTrackFixed` and `BuildFixed`, with `FixedTrackLinksByTitle`) | not executed | Discography.AsWrittenCoverKeyMisses | Discography.CoverKeyMatchesTitle |
