/** The pure parts of the site build script (build/build.py): splitting the
    project document into Markdown sections, extracting the team
    configuration block and scraping its agent and workflow lists, and the
    quality checks over the file system, which is an oracle here. */
module SiteBuild {
  import opened Wrappers
  import opened Text
  import opened Discography

  // ---------------------------------------------------------------------------
  // Sections of the project document
  // ---------------------------------------------------------------------------

  datatype Section = Section(title: string, content: seq<string>)

  predicate IsHash(c: char) { c == '#' }

  /** `re.match(r"^(#{1,6})\s+(.*)$", line)` on a line without line
      boundaries: one to six leading `#`, then whitespace.  Seven or more
      `#` never match, as the character after six of them is a `#`. */
  predicate IsHeading(line: string) {
    var h := LeadingCount(line, IsHash);
    1 <= h <= 6 && h < |line| && IsSpace(line[h])
  }

  /** `m.group(2).strip()`: the text after the hashes and the whitespace
      run, stripped. */
  function HeadingTitle(line: string): (t: string)
    requires IsHeading(line)
    ensures |t| <= |line| - 2
  {
    var h := LeadingCount(line, IsHash);
    var rest := line[h..];
    Strip(rest[LeadingCount(rest, IsSpace)..])
  }

  /** A line read as a heading: its title, or `None` for any other line. */
  function ParseHeading(line: string): (t: Option<string>)
    ensures t.Some? <==> IsHeading(line)
  {
    if IsHeading(line) then Some(HeadingTitle(line)) else None
  }

  function AddLine(s: Section, line: string): Section {
    s.(content := s.content + [line])
  }

  /** The sections of a document's lines: each heading opens one, every
      other line goes to the open section, and lines before the first
      heading go nowhere.  What a heading is is a parameter, so that the
      proofs about the split never look inside it. */
  function SectionizeBy(lines: seq<string>, parse: string -> Option<string>): seq<Section> {
    if |lines| == 0 then []
    else
      var line := lines[|lines| - 1];
      var secs := SectionizeBy(lines[..|lines| - 1], parse);
      match parse(line)
      case Some(t) => secs + [Section(t, [])]
      case None => if |secs| == 0 then secs else secs[..|secs| - 1] + [AddLine(secs[|secs| - 1], line)]
  }

  function Sectionize(lines: seq<string>): seq<Section> {
    SectionizeBy(lines, ParseHeading)
  }

  /** The indices of the heading lines, ascending. */
  function Headings(lines: seq<string>, parse: string -> Option<string>): (hs: seq<nat>)
    ensures |hs| <= |lines|
  {
    if |lines| == 0 then []
    else
      var n := |lines| - 1;
      Headings(lines[..n], parse) + (if parse(lines[n]).Some? then [n] else [])
  }

  /** `hs` lists exactly the heading lines of `lines`, ascending. */
  predicate HeadingsOk(lines: seq<string>, parse: string -> Option<string>, hs: seq<nat>) {
    && (forall i :: 0 <= i < |hs| ==> hs[i] < |lines|)
    && (forall i :: 0 <= i < |hs| ==> parse(lines[hs[i]]).Some?)
    && (forall i, j :: 0 <= i < j < |hs| ==> hs[i] < hs[j])
    && (forall k :: 0 <= k < |lines| && parse(lines[k]).Some? ==> k in hs)
  }

  /** `Headings` lists exactly the heading lines, ascending. */
  lemma {:induction false} HeadingsSpec(lines: seq<string>, parse: string -> Option<string>)
    ensures var hs := Headings(lines, parse);
            && (forall i :: 0 <= i < |hs| ==> hs[i] < |lines|)
            && (forall i :: 0 <= i < |hs| ==> parse(lines[hs[i]]).Some?)
            && (forall i, j :: 0 <= i < j < |hs| ==> hs[i] < hs[j])
            && (forall k :: 0 <= k < |lines| && parse(lines[k]).Some? ==> k in hs)
  {
    HeadingsOkAll(lines, parse);
  }

  lemma {:induction false} HeadingsOkAll(lines: seq<string>, parse: string -> Option<string>)
    ensures HeadingsOk(lines, parse, Headings(lines, parse))
    decreases |lines|
  {
    if |lines| > 0 {
      var n := |lines| - 1;
      HeadingsOkAll(lines[..n], parse);
      HeadingsExtend(lines, parse, Headings(lines[..n], parse));
    }
  }

  /** One more line: the step of `Headings`. */
  lemma HeadingsExtend(lines: seq<string>, parse: string -> Option<string>, h0: seq<nat>)
    requires |lines| > 0
    requires HeadingsOk(lines[..|lines| - 1], parse, h0)
    ensures HeadingsOk(lines, parse, h0 + (if parse(lines[|lines| - 1]).Some? then [|lines| - 1] else []))
  {
    var n := |lines| - 1;
    var init := lines[..n];
    var hs := h0 + (if parse(lines[n]).Some? then [n] else []);
    forall i | 0 <= i < |h0|
      ensures hs[i] == h0[i] && h0[i] < n && parse(lines[hs[i]]).Some?
    {
      assert init[h0[i]] == lines[h0[i]];
    }
    forall k | 0 <= k < n && parse(lines[k]).Some?
      ensures k in hs
    {
      assert init[k] == lines[k];
      assert k in h0;
    }
  }

  /** Where section `i` ends: at the next heading, or at the end. */
  function SectionEnd(hs: seq<nat>, i: nat, n: nat): nat {
    if i + 1 < |hs| then hs[i + 1] else n
  }

  /** Section `s` is the one opened by the heading at `start` and ending at
      `end`: titled by that line and holding exactly the lines between. */
  predicate SectionOk(lines: seq<string>, start: nat, end: nat, s: Section, parse: string -> Option<string>) {
    && start < end <= |lines|
    && parse(lines[start]) == Some(s.title)
    && s.content == lines[start + 1..end]
  }

  /** One section per heading, each running to the next heading. */
  predicate SectionsMatchBy(lines: seq<string>, secs: seq<Section>, parse: string -> Option<string>) {
    var hs := Headings(lines, parse);
    && |secs| == |hs|
    && forall i {:trigger secs[i]} :: 0 <= i < |hs| ==> SectionOk(lines, hs[i], SectionEnd(hs, i, |lines|), secs[i], parse)
  }

  /** One section per Markdown heading, titled by it and holding every line
      up to the next heading. */
  predicate SectionsMatch(lines: seq<string>, secs: seq<Section>) {
    SectionsMatchBy(lines, secs, ParseHeading)
  }

  lemma {:induction false} SectionizeSpec(lines: seq<string>, parse: string -> Option<string>)
    ensures SectionsMatchBy(lines, SectionizeBy(lines, parse), parse)
    decreases |lines|
  {
    if |lines| > 0 {
      var n := |lines| - 1;
      SectionizeSpec(lines[..n], parse);
      if parse(lines[n]).Some? {
        SectionizeHeading(lines, parse);
      } else {
        SectionizeOther(lines, parse);
      }
    }
  }

  /** A section of a prefix of the lines is a section of the lines. */
  lemma SectionOkPrefix(lines: seq<string>, n: nat, start: nat, end: nat, s: Section, parse: string -> Option<string>)
    requires n <= |lines|
    requires SectionOk(lines[..n], start, end, s, parse)
    ensures SectionOk(lines, start, end, s, parse)
  {
    assert lines[..n][start] == lines[start];
    assert lines[..n][start + 1..end] == lines[start + 1..end];
  }

  lemma SectionizeHeading(lines: seq<string>, parse: string -> Option<string>)
    requires |lines| > 0 && parse(lines[|lines| - 1]).Some?
    requires SectionsMatchBy(lines[..|lines| - 1], SectionizeBy(lines[..|lines| - 1], parse), parse)
    ensures SectionsMatchBy(lines, SectionizeBy(lines, parse), parse)
  {
    var n := |lines| - 1;
    var h0 := Headings(lines[..n], parse);
    var s0 := SectionizeBy(lines[..n], parse);
    var last := Section(parse(lines[n]).value, []);
    assert Headings(lines, parse) == h0 + [n];
    assert SectionizeBy(lines, parse) == s0 + [last];
    AppendSection(lines, h0, s0, last, parse);
  }

  /** Appending the section of a final heading line keeps every earlier
      section, whose end moves from the end of the text to that line. */
  lemma AppendSection(lines: seq<string>, h0: seq<nat>, s0: seq<Section>, last: Section,
                      parse: string -> Option<string>)
    requires |lines| > 0 && |s0| == |h0|
    requires forall i {:trigger s0[i]} :: 0 <= i < |h0| ==>
               SectionOk(lines[..|lines| - 1], h0[i], SectionEnd(h0, i, |lines| - 1), s0[i], parse)
    requires parse(lines[|lines| - 1]) == Some(last.title) && last.content == []
    ensures var hs := h0 + [|lines| - 1];
            forall i {:trigger (s0 + [last])[i]} :: 0 <= i < |hs| ==>
              SectionOk(lines, hs[i], SectionEnd(hs, i, |lines|), (s0 + [last])[i], parse)
  {
    var n := |lines| - 1;
    var hs := h0 + [n];
    var secs := s0 + [last];
    forall i | 0 <= i < |hs|
      ensures SectionOk(lines, hs[i], SectionEnd(hs, i, |lines|), secs[i], parse)
    {
      if i < |h0| {
        assert secs[i] == s0[i];
        KeepEarlier(lines, h0, i, s0[i], parse);
      } else {
        assert lines[n + 1..|lines|] == [];
      }
    }
  }

  lemma KeepEarlier(lines: seq<string>, h0: seq<nat>, i: nat, s: Section, parse: string -> Option<string>)
    requires |lines| > 0 && i < |h0|
    requires SectionOk(lines[..|lines| - 1], h0[i], SectionEnd(h0, i, |lines| - 1), s, parse)
    ensures var hs := h0 + [|lines| - 1];
            SectionOk(lines, hs[i], SectionEnd(hs, i, |lines|), s, parse)
  {
    var n := |lines| - 1;
    var hs := h0 + [n];
    assert hs[i] == h0[i];
    assert SectionEnd(hs, i, |lines|) == SectionEnd(h0, i, n);
    SectionOkPrefix(lines, n, h0[i], SectionEnd(h0, i, n), s, parse);
  }

  lemma SectionizeOther(lines: seq<string>, parse: string -> Option<string>)
    requires |lines| > 0 && parse(lines[|lines| - 1]).None?
    requires SectionsMatchBy(lines[..|lines| - 1], SectionizeBy(lines[..|lines| - 1], parse), parse)
    ensures SectionsMatchBy(lines, SectionizeBy(lines, parse), parse)
  {
    var n := |lines| - 1;
    var h0 := Headings(lines[..n], parse);
    var s0 := SectionizeBy(lines[..n], parse);
    OtherStep(lines, parse);
    ExtendLast(lines, h0, s0, parse);
  }

  /** A final non-heading line extends the last section and leaves the
      earlier ones as they were. */
  lemma ExtendLast(lines: seq<string>, h0: seq<nat>, s0: seq<Section>, parse: string -> Option<string>)
    requires |lines| > 0 && |s0| == |h0|
    requires forall i {:trigger s0[i]} :: 0 <= i < |h0| ==>
               SectionOk(lines[..|lines| - 1], h0[i], SectionEnd(h0, i, |lines| - 1), s0[i], parse)
    ensures var secs := if |s0| == 0 then s0 else s0[..|s0| - 1] + [AddLine(s0[|s0| - 1], lines[|lines| - 1])];
            && |secs| == |h0|
            && forall i {:trigger secs[i]} :: 0 <= i < |h0| ==>
                 SectionOk(lines, h0[i], SectionEnd(h0, i, |lines|), secs[i], parse)
  {
    var n := |lines| - 1;
    var secs := if |s0| == 0 then s0 else s0[..|s0| - 1] + [AddLine(s0[|s0| - 1], lines[n])];
    forall i | 0 <= i < |h0|
      ensures SectionOk(lines, h0[i], SectionEnd(h0, i, |lines|), secs[i], parse)
    {
      if i + 1 < |h0| {
        assert secs[i] == s0[i];
        SectionOkPrefix(lines, n, h0[i], SectionEnd(h0, i, n), s0[i], parse);
      } else {
        SectionOkLast(lines, h0[i], s0[i], parse);
        assert secs[i] == AddLine(s0[i], lines[n]);
      }
    }
  }

  /** A final line that is no heading adds no heading and goes to the open
      section, if any. */
  lemma OtherStep(lines: seq<string>, parse: string -> Option<string>)
    requires |lines| > 0 && parse(lines[|lines| - 1]).None?
    ensures var n := |lines| - 1;
            var s0 := SectionizeBy(lines[..n], parse);
            && Headings(lines, parse) == Headings(lines[..n], parse)
            && (|s0| == 0 ==> SectionizeBy(lines, parse) == s0)
            && (|s0| > 0 ==> SectionizeBy(lines, parse) == s0[..|s0| - 1] + [AddLine(s0[|s0| - 1], lines[n])])
  {
  }

  /** The last section takes a final non-heading line. */
  lemma SectionOkLast(lines: seq<string>, start: nat, s: Section, parse: string -> Option<string>)
    requires |lines| > 0
    requires SectionOk(lines[..|lines| - 1], start, |lines| - 1, s, parse)
    ensures SectionOk(lines, start, |lines|, AddLine(s, lines[|lines| - 1]), parse)
  {
    var n := |lines| - 1;
    assert s.content + [lines[n]] == lines[start + 1..];
    assert lines[..n][start] == lines[start];
  }

  /** One section per heading line, and no content line is a heading. */
  lemma SectionCountsBy(lines: seq<string>, parse: string -> Option<string>)
    ensures var secs := SectionizeBy(lines, parse);
            && |secs| == |Headings(lines, parse)|
            && forall i, j :: 0 <= i < |secs| && 0 <= j < |secs[i].content| ==> parse(secs[i].content[j]).None?
  {
    SectionizeSpec(lines, parse);
    var hs := Headings(lines, parse);
    var secs := SectionizeBy(lines, parse);
    forall i, j | 0 <= i < |secs| && 0 <= j < |secs[i].content|
      ensures parse(secs[i].content[j]).None?
    {
      ContentNotHeading(lines, parse, i, secs[i], j);
    }
  }

  lemma ContentNotHeading(lines: seq<string>, parse: string -> Option<string>, i: nat, s: Section, j: nat)
    requires var hs := Headings(lines, parse);
             i < |hs| && SectionOk(lines, hs[i], SectionEnd(hs, i, |lines|), s, parse)
    requires j < |s.content|
    ensures parse(s.content[j]).None?
  {
    var hs := Headings(lines, parse);
    HeadingsSpec(lines, parse);
    assert s.content[j] == lines[hs[i] + 1 + j];
    BetweenHeadings(hs, i, hs[i] + 1 + j, |lines|);
  }

  /** The document has one section per Markdown heading, and no line of a
      section's content is a heading. */
  lemma SectionCounts(lines: seq<string>)
    ensures |Sectionize(lines)| == |Headings(lines, ParseHeading)|
    ensures forall i, j :: 0 <= i < |Sectionize(lines)| && 0 <= j < |Sectionize(lines)[i].content| ==>
              !IsHeading(Sectionize(lines)[i].content[j])
  {
    SectionCountsBy(lines, ParseHeading);
  }

  /** Nothing strictly between two consecutive entries of an ascending
      sequence is in it. */
  lemma BetweenHeadings(hs: seq<nat>, i: nat, k: nat, n: nat)
    requires forall a, b :: 0 <= a < b < |hs| ==> hs[a] < hs[b]
    requires i < |hs| && hs[i] < k < SectionEnd(hs, i, n)
    ensures k !in hs
  {
    forall m | 0 <= m < |hs|
      ensures hs[m] != k
    {
      if m <= i {
        assert hs[m] <= hs[i];
      } else {
        assert hs[i + 1] <= hs[m];
      }
    }
  }

  /** The sections so far with the open one, if any, closed. */
  function Closed(secs: seq<Section>, current: Option<Section>): seq<Section> {
    if current.Some? then secs + [current.value] else secs
  }

  lemma SectionizeStep(lines: seq<string>, i: nat)
    requires i < |lines|
    ensures var secs := Sectionize(lines[..i]);
            Sectionize(lines[..i + 1]) ==
              if IsHeading(lines[i]) then secs + [Section(HeadingTitle(lines[i]), [])]
              else if |secs| == 0 then secs
              else secs[..|secs| - 1] + [AddLine(secs[|secs| - 1], lines[i])]
  {
    assert lines[..i + 1][..i] == lines[..i];
  }

  /** The loop of `parse_project_doc`: `current` is the open section. */
  method ParseSections(lines: seq<string>) returns (secs: seq<Section>)
    ensures SectionsMatch(lines, secs)
  {
    secs := [];
    var current: Option<Section> := None;
    var i := 0;
    while i < |lines|
      invariant 0 <= i <= |lines|
      invariant Sectionize(lines[..i]) == Closed(secs, current)
      invariant current.None? ==> secs == []
    {
      var line := lines[i];
      SectionizeStep(lines, i);
      if IsHeading(line) {
        secs := Closed(secs, current);
        current := Some(Section(HeadingTitle(line), []));
      } else if current.Some? {
        current := Some(AddLine(current.value, line));
      }
      i := i + 1;
    }
    secs := Closed(secs, current);
    assert lines[..i] == lines;
    SectionizeSpec(lines, ParseHeading);
  }

  datatype DocSummary = DocSummary(exists_: bool, sections: seq<Section>)

  /** `parse_project_doc` given the document's text, `None` when the file
      does not exist. */
  method ParseProjectDoc(doc: Option<string>) returns (r: DocSummary)
    ensures doc.None? ==> !r.exists_ && r.sections == []
    ensures doc.Some? ==> r.exists_ && SectionsMatch(SplitLines(doc.value), r.sections)
  {
    match doc
    case None =>
      return DocSummary(false, []);
    case Some(text) =>
      var secs := ParseSections(SplitLines(text));
      return DocSummary(true, secs);
  }

  // ---------------------------------------------------------------------------
  // The team configuration block
  // ---------------------------------------------------------------------------

  const StartTag := "==================== START: .bmad-core/agent-teams/team-fullstack.yaml ===================="
  const EndTag := "==================== END: .bmad-core/agent-teams/team-fullstack.yaml ===================="
  const BundleKey := "bundle:\n"
  const AgentsKey := "agents:"
  const WorkflowsKey := "workflows:"

  /** The stripped text between the first start tag and the first end tag,
      when both occur and the end tag comes later. */
  function TaggedBlock(txt: string): (b: Option<string>)
    ensures b.Some? <==> Contains(txt, StartTag) && Contains(txt, EndTag)
                         && Find(txt, EndTag, 0) > Find(txt, StartTag, 0)
  {
    var s := Find(txt, StartTag, 0);
    var e := Find(txt, EndTag, 0);
    ContainsIff(txt, StartTag);
    ContainsIff(txt, EndTag);
    if s != -1 && e != -1 && e > s then Some(Strip(Slice(txt, s + |StartTag|, e))) else None
  }

  /** `r"bundle:\n[\s\S]+?agents:[\s\S]+?workflows:[\s\S]+"` matches at `k`:
      the three keys in order, each separated from the next by at least one
      character, and at least one character after the last. */
  ghost predicate BundleMatchAt(txt: string, k: int) {
    exists a, w :: && OccursAt(txt, BundleKey, k)
                   && k + |BundleKey| + 1 <= a && OccursAt(txt, AgentsKey, a)
                   && a + |AgentsKey| + 1 <= w && OccursAt(txt, WorkflowsKey, w)
                   && w + |WorkflowsKey| < |txt|
  }

  /** The same test with the earliest `agents:` and `workflows:`. */
  predicate BundleAt(txt: string, k: nat) {
    && OccursAt(txt, BundleKey, k)
    && var a := Find(txt, AgentsKey, k + |BundleKey| + 1);
       && a != -1
       && var w := Find(txt, WorkflowsKey, a + |AgentsKey| + 1);
          w != -1 && w + |WorkflowsKey| < |txt|
  }

  lemma BundleAtIff(txt: string, k: nat)
    ensures BundleAt(txt, k) <==> BundleMatchAt(txt, k)
  {
    if BundleMatchAt(txt, k) {
      var a, w :| && OccursAt(txt, BundleKey, k)
                  && k + |BundleKey| + 1 <= a && OccursAt(txt, AgentsKey, a)
                  && a + |AgentsKey| + 1 <= w && OccursAt(txt, WorkflowsKey, w)
                  && w + |WorkflowsKey| < |txt|;
      var a0 := Find(txt, AgentsKey, k + |BundleKey| + 1);
      assert a0 != -1 && a0 <= a;
      var w0 := Find(txt, WorkflowsKey, a0 + |AgentsKey| + 1);
      assert w0 != -1 && w0 <= w;
    }
  }

  /** The least match position at or after `k`. */
  function FirstBundle(txt: string, k: nat): (r: Option<nat>)
    ensures r.Some? ==> k <= r.value && BundleMatchAt(txt, r.value)
    ensures r.Some? ==> forall j :: k <= j < r.value ==> !BundleMatchAt(txt, j)
    ensures r.None? ==> forall j :: k <= j ==> !BundleMatchAt(txt, j)
    decreases |txt| - k
  {
    BundleAtIff(txt, k);
    if k >= |txt| then
      assert forall j :: k <= j ==> !OccursAt(txt, BundleKey, j);
      None
    else if BundleAt(txt, k) then Some(k)
    else FirstBundle(txt, k + 1)
  }

  /** The block `extract_team_config` settles on: the tagged block when it
      is not empty, else everything from the first bundle match on. */
  function ConfigBlock(txt: string): (b: Option<string>)
    ensures b.Some? ==> b.value != ""
    ensures TaggedBlock(txt).Some? && TaggedBlock(txt).value != "" ==> b == TaggedBlock(txt)
    ensures b.None? <==> (TaggedBlock(txt).None? || TaggedBlock(txt).value == "")
                         && forall k :: 0 <= k ==> !BundleMatchAt(txt, k)
  {
    var tagged := TaggedBlock(txt);
    if tagged.Some? && tagged.value != "" then tagged
    else
      match FirstBundle(txt, 0)
      case Some(k) => Some(txt[k..])
      case None => None
  }

  /** A tagged block is what lies strictly between the two tags, stripped. */
  lemma TaggedBlockBetweenTags(txt: string)
    requires TaggedBlock(txt).Some?
    ensures var s := Find(txt, StartTag, 0);
            var e := Find(txt, EndTag, 0);
            && OccursAt(txt, StartTag, s) && OccursAt(txt, EndTag, e) && s < e
            && (forall k :: 0 <= k < s ==> !OccursAt(txt, StartTag, k))
            && (forall k :: 0 <= k < e ==> !OccursAt(txt, EndTag, k))
            && TaggedBlock(txt).value == Strip(Slice(txt, s + |StartTag|, e))
  {
  }

  /** A fallback block runs from the first match to the end of the text. */
  lemma FallbackBlockShape(txt: string)
    requires TaggedBlock(txt).None? || TaggedBlock(txt).value == ""
    requires ConfigBlock(txt).Some?
    ensures exists k :: 0 <= k < |txt| && BundleMatchAt(txt, k) && ConfigBlock(txt).value == txt[k..]
                        && forall j :: 0 <= j < k ==> !BundleMatchAt(txt, j)
  {
    var k := FirstBundle(txt, 0).value;
    assert ConfigBlock(txt).value == txt[k..];
    assert OccursAt(txt, BundleKey, k);
  }

  // ---------------------------------------------------------------------------
  // Scraping agents and workflows
  // ---------------------------------------------------------------------------

  predicate IsDashOrSpace(c: char) { c == '-' || c == ' ' }

  /** `line.strip().startswith("- ")`. */
  predicate IsBullet(line: string) { StartsWith(Strip(line), "- ") }

  /** `line.strip().lstrip("- ")`. */
  function BulletItem(line: string): string { LStrip(Strip(line), IsDashOrSpace) }

  /** The items of the bullet lines, of those naming a `.yaml` file when
      `yamlOnly`, in order. */
  function BulletItems(lines: seq<string>, yamlOnly: bool): (items: seq<string>)
    ensures |items| <= |lines|
  {
    if |lines| == 0 then []
    else
      var rest := BulletItems(lines[1..], yamlOnly);
      if IsBullet(lines[0]) && (!yamlOnly || Contains(lines[0], ".yaml")) then [BulletItem(lines[0])] + rest
      else rest
  }

  /** The agents list of the scraping fallback. */
  function Agents(block: string): seq<string> {
    if Contains(block, AgentsKey) then BulletItems(SplitLines(block), false) else []
  }

  /** The workflows list of the scraping fallback. */
  function Workflows(block: string): seq<string> {
    if Contains(block, WorkflowsKey) then BulletItems(SplitLines(block), true) else []
  }

  /** Every `.yaml` bullet item is a bullet item, in the same order. */
  lemma {:induction false} YamlItemsAreItems(lines: seq<string>)
    ensures forall x :: x in BulletItems(lines, true) ==> x in BulletItems(lines, false)
    ensures |BulletItems(lines, true)| <= |BulletItems(lines, false)|
    decreases |lines|
  {
    if |lines| > 0 {
      YamlItemsAreItems(lines[1..]);
    }
  }

  /** When the block mentions `agents:`, every workflow is also an agent. */
  lemma WorkflowsAreAgents(block: string)
    requires Contains(block, AgentsKey)
    ensures forall x :: x in Workflows(block) ==> x in Agents(block)
    ensures |Workflows(block)| <= |Agents(block)|
  {
    YamlItemsAreItems(SplitLines(block));
  }

  /** A bullet item is the stripped line without its leading dashes and
      spaces. */
  lemma BulletItemShape(line: string)
    ensures var item := BulletItem(line);
            && (|item| == 0 || !IsDashOrSpace(item[0]))
            && exists n :: 0 <= n <= |Strip(line)| && item == Strip(line)[n..]
                           && forall k :: 0 <= k < n ==> IsDashOrSpace(Strip(line)[k])
  {
    var s := Strip(line);
    var n := LeadingCount(s, IsDashOrSpace);
    assert BulletItem(line) == s[n..];
  }

  datatype TeamConfig =
    | NoTeamFile
    | NotExtracted
    | Extracted(block: string, agents: seq<string>, workflows: seq<string>)

  /** `extract_team_config` given the file's text (`None` when it does not
      exist), on the path where pyyaml is not available. */
  function ExtractTeamConfig(txt: Option<string>): (r: TeamConfig)
    ensures txt.None? <==> r.NoTeamFile?
    ensures txt.Some? ==> (r.NotExtracted? <==> ConfigBlock(txt.value).None?)
    ensures r.Extracted? ==> r.block != "" && Some(r.block) == ConfigBlock(txt.value)
  {
    match txt
    case None => NoTeamFile
    case Some(t) =>
      match ConfigBlock(t)
      case None => NotExtracted
      case Some(b) => Extracted(b, Agents(b), Workflows(b))
  }

  // ---------------------------------------------------------------------------
  // Quality checks
  // ---------------------------------------------------------------------------

  const SiteFiles := ["index.html", "discography.html", "events.html", "styles.css", "script.js"]
  const DataFiles := ["discography.json", "events.json", "links.json"]
  const MissingSiteFile := "缺少站点文件: "
  const MissingDataFile := "缺少数据文件: "
  const UnparsableData := "JSON 解析失败: "
  const MissingCovers := "缺少封面目录: covers/"
  const NoCoverImage := "封面目录未找到图片文件"

  /** A data file: missing, present but not JSON (with the parser's
      message), or parsed. */
  datatype DataState = Missing | Unparsable(error: string) | Parsed

  /** What the checks observe: which site files exist, the state of each
      data file, and the names in the covers directory (`None` when it does
      not exist). */
  datatype Oracle = Oracle(siteExists: string -> bool, data: string -> DataState, covers: Option<seq<string>>)

  function SiteIssues(files: seq<string>, exists_: string -> bool): (issues: seq<string>)
    ensures |issues| <= |files|
    ensures issues == [] <==> forall i :: 0 <= i < |files| ==> exists_(files[i])
  {
    if |files| == 0 then []
    else
      var rest := SiteIssues(files[1..], exists_);
      assert forall i :: 1 <= i < |files| ==> files[i] == files[1..][i - 1];
      (if exists_(files[0]) then [] else [MissingSiteFile + files[0]]) + rest
  }

  /** The issue of one data file: at most one, never both kinds. */
  function DataIssue(name: string, st: DataState): (issue: Option<string>)
    ensures issue.None? <==> st.Parsed?
    ensures st.Missing? ==> issue == Some(MissingDataFile + name)
    ensures st.Unparsable? ==> issue == Some(UnparsableData + name + ": " + st.error)
  {
    match st
    case Missing => Some(MissingDataFile + name)
    case Unparsable(e) => Some(UnparsableData + name + ": " + e)
    case Parsed => None
  }

  function DataIssues(files: seq<string>, data: string -> DataState): (issues: seq<string>)
    ensures |issues| <= |files|
    ensures issues == [] <==> forall i :: 0 <= i < |files| ==> data(files[i]).Parsed?
  {
    if |files| == 0 then []
    else
      var rest := DataIssues(files[1..], data);
      assert forall i :: 1 <= i < |files| ==> files[i] == files[1..][i - 1];
      match DataIssue(files[0], data(files[0]))
      case Some(m) => [m] + rest
      case None => rest
  }

  /** Some name has a `.png`, `.jpg` or `.jpeg` suffix, in any case. */
  predicate HasImage(names: seq<string>) {
    exists i :: 0 <= i < |names| && IsImageSuffix(PathSuffix(names[i]))
  }

  function CoverIssues(covers: Option<seq<string>>): (issues: seq<string>)
    ensures |issues| <= 1
    ensures issues == [] <==> covers.Some? && HasImage(covers.value)
  {
    match covers
    case None => [MissingCovers]
    case Some(names) => if HasImage(names) then [] else [NoCoverImage]
  }

  predicate AllPass(o: Oracle) {
    && (forall i :: 0 <= i < |SiteFiles| ==> o.siteExists(SiteFiles[i]))
    && (forall i :: 0 <= i < |DataFiles| ==> o.data(DataFiles[i]).Parsed?)
    && o.covers.Some? && HasImage(o.covers.value)
  }

  /** `quality_checks`: site files, then data files, then covers. */
  function QualityChecks(o: Oracle): (issues: seq<string>)
    ensures |issues| <= |SiteFiles| + |DataFiles| + 1
    ensures issues == [] <==> AllPass(o)
  {
    SiteIssues(SiteFiles, o.siteExists) + DataIssues(DataFiles, o.data) + CoverIssues(o.covers)
  }
}
