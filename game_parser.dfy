/**
 * The parsing half of `renderGames`: a catalog text is cut into blocks at
 * every `@`, each block into trimmed non-empty lines, and each block's
 * lines give one entry: a title (the first line starting with `###`), a
 * description (the first line starting with `##`) and the versions found
 * in the lines starting with `#v`. The HTML each entry becomes, and the
 * page element it is appended to, are not modelled: the entry is what the
 * markup is built from.
 */
module GameParser {
  import opened Sequences
  import opened Strings
  import opened VersionLine

  /** One game card: what the `<h3>`, the description `<p>` and the
      version links of a card are made of. */
  datatype Entry = Entry(title: String, desc: String, versions: seq<Version>)

  /** The title used when a block has no usable `###` line. */
  const Untitled: String := "未命名"

  /** `rawText.split("@").map(b => b.trim()).filter(b => b)`. */
  function Segment(raw: String): (blocks: seq<String>)
    ensures forall i | 0 <= i < |blocks| :: blocks[i] != [] && IsTrimmed(blocks[i]) && '@' !in blocks[i]
  {
    SplitTrimmed(raw, '@')
  }

  /** `block.split("\n").map(l => l.trim()).filter(l => l)`. */
  function Lines(block: String): (lines: seq<String>)
    ensures forall i | 0 <= i < |lines| :: lines[i] != [] && IsTrimmed(lines[i]) && '\n' !in lines[i]
  {
    SplitTrimmed(block, '\n')
  }

  /** `lines.find(l => l.startsWith(prefix))`, as the index of the line
      found, or |lines| when there is none. */
  function FindPrefixed(lines: seq<String>, prefix: String): (k: nat)
    ensures k <= |lines|
    ensures k < |lines| ==> StartsWith(lines[k], prefix)
    ensures forall t | 0 <= t < k :: !StartsWith(lines[t], prefix)
    decreases |lines|
  {
    if lines == [] then 0
    else if StartsWith(lines[0], prefix) then 0
    else 1 + FindPrefixed(lines[1..], prefix)
  }

  /** The first line starting with `###`, with every `###` removed, or
      the placeholder when there is no such line or nothing is left. */
  function Title(lines: seq<String>): (title: String)
    ensures title != []
    ensures FindPrefixed(lines, "###") == |lines| ==> title == Untitled
    ensures var k := FindPrefixed(lines, "###");
            k < |lines| && RemoveAll(lines[k], "###") != [] ==> title == RemoveAll(lines[k], "###")
    ensures title != Untitled ==>
              var k := FindPrefixed(lines, "###");
              k < |lines| && title == RemoveAll(lines[k], "###")
  {
    var k := FindPrefixed(lines, "###");
    if k == |lines| then Untitled
    else
      var t := RemoveAll(lines[k], "###");
      if t == [] then Untitled else t
  }

  /** The first line starting with `##`, with every `##` removed, or the
      empty string when there is no such line. */
  function Desc(lines: seq<String>): (desc: String)
    ensures FindPrefixed(lines, "##") == |lines| ==> desc == []
    ensures var k := FindPrefixed(lines, "##");
            k < |lines| ==> desc == RemoveAll(lines[k], "##")
  {
    var k := FindPrefixed(lines, "##");
    if k == |lines| then [] else RemoveAll(lines[k], "##")
  }

  /** `lines.filter(l => l.startsWith("#v"))`. */
  function VersionCandidates(lines: seq<String>): (cands: seq<String>)
    ensures |cands| <= |lines|
    ensures forall i | 0 <= i < |cands| :: StartsWith(cands[i], "#v")
    decreases |lines|
  {
    if lines == [] then []
    else (if StartsWith(lines[0], "#v") then [lines[0]] else []) + VersionCandidates(lines[1..])
  }

  /** The candidates are exactly the lines that start with `#v`. */
  lemma {:induction false} VersionCandidatesExact(lines: seq<String>)
    ensures forall c | c in VersionCandidates(lines) :: StartsWith(c, "#v") && c in lines
    ensures forall l | l in lines && StartsWith(l, "#v") :: l in VersionCandidates(lines)
    decreases |lines|
  {
    if lines != [] {
      VersionCandidatesExact(lines[1..]);
      var rest := VersionCandidates(lines[1..]);
      var head := if StartsWith(lines[0], "#v") then [lines[0]] else [];
      assert VersionCandidates(lines) == head + rest;
      assert forall l | l in lines[1..] :: l in lines;
      assert forall l | l in lines && l != lines[0] :: l in lines[1..];
    }
  }

  /** The version one candidate line yields once its `#` runs are
      stripped, if it matches. */
  function CleanMatch(cand: String): (v: Option<Version>)
    ensures v.Some? ==> WellFormed(v.value) && |v.value.ver| + |v.value.link| + 2 <= |cand|
  {
    var clean := StripHashes(cand);
    MatchVersionSpec(clean);
    MatchVersion(clean)
  }

  /** The versions the candidate lines yield, in order. */
  function MatchedVersions(cands: seq<String>): (versions: seq<Version>)
    ensures |versions| <= |cands|
  {
    FilterMap(CleanMatch, cands)
  }

  /** The entry one block yields. */
  function Extract(block: String): (entry: Entry)
    ensures entry.title != []
  {
    var lines := Lines(block);
    Entry(Title(lines), Desc(lines), MatchedVersions(VersionCandidates(lines)))
  }

  /** The entries of a catalog text: one per non-blank block, in the order
      of the blocks. */
  function Parse(raw: String): (entries: seq<Entry>)
    ensures |entries| == |Segment(raw)|
    ensures forall i | 0 <= i < |entries| :: entries[i].title != []
  {
    var blocks := Segment(raw);
    forall i | 0 <= i < |blocks| ensures Map(Extract, blocks)[i].title != [] {
      MapAt(Extract, blocks, i);
    }
    Map(Extract, blocks)
  }

  /** Entry i of a text is the entry of its block i. */
  lemma ParseEntries(raw: String)
    ensures forall i | 0 <= i < |Parse(raw)| :: Parse(raw)[i] == Extract(Segment(raw)[i])
  {
    forall i | 0 <= i < |Parse(raw)| ensures Parse(raw)[i] == Extract(Segment(raw)[i]) {
      MapAt(Extract, Segment(raw), i);
    }
  }

  // Segmenting

  /** Blocks keep the order of the text: the blocks of `a@b` are those of
      a followed by those of b. */
  lemma SegmentAppend(a: String, b: String)
    ensures Segment(a + "@" + b) == Segment(a) + Segment(b)
  {
    SplitAppend(a, '@', b);
    TrimmedNonEmptyAppend(Split(a, '@'), Split(b, '@'));
  }

  /** A text without `@` is one block, unless it is blank. */
  lemma SegmentWithoutSeparator(raw: String)
    requires '@' !in raw
    ensures Segment(raw) == if Trim(raw) == [] then [] else [Trim(raw)]
  {
    SplitWithoutSep(raw, '@');
    assert Split(raw, '@')[1..] == [];
  }

  /** A text yields no entry exactly when it holds only white space and
      `@` (the empty text included). */
  lemma ParseEmpty(raw: String)
    ensures Parse(raw) == [] <==> forall k | 0 <= k < |raw| :: IsSpace(raw[k]) || raw[k] == '@'
  {
    SplitTrimmedEmpty(raw, '@');
  }

  /** Entries keep the order of the blocks, and each block is parsed on its
      own: the entries of `a@b` are those of a followed by those of b. */
  lemma ParseAppend(a: String, b: String)
    ensures Parse(a + "@" + b) == Parse(a) + Parse(b)
  {
    SegmentAppend(a, b);
    MapAppend(Extract, Segment(a), Segment(b));
  }

  // Line splitting

  /** A block has no line exactly when it is blank; so every block the
      segmenter keeps has at least one line. */
  lemma LinesEmpty(block: String)
    ensures Lines(block) == [] <==> forall k | 0 <= k < |block| :: IsSpace(block[k])
  {
    SplitTrimmedEmpty(block, '\n');
  }

  lemma SegmentBlocksHaveLines(raw: String)
    ensures forall i | 0 <= i < |Segment(raw)| :: Lines(Segment(raw)[i]) != []
  {
    forall i | 0 <= i < |Segment(raw)| ensures Lines(Segment(raw)[i]) != [] {
      LinesEmpty(Segment(raw)[i]);
    }
  }

  // Field extraction

  /** Every `###` line also starts with `##`, so the description line never
      comes after the title line. */
  lemma DescLineNotAfterTitleLine(lines: seq<String>)
    ensures FindPrefixed(lines, "##") <= FindPrefixed(lines, "###")
  {
    var k := FindPrefixed(lines, "###");
    if k < |lines| {
      assert lines[k][..2] == lines[k][..3][..2];
      assert StartsWith(lines[k], "##");
    }
  }

  /** When no `##` line precedes the title line, the description is the
      title line with every `##` removed. */
  lemma DescFromTitleLine(lines: seq<String>)
    requires FindPrefixed(lines, "###") < |lines|
    requires forall t | 0 <= t < FindPrefixed(lines, "###") :: !StartsWith(lines[t], "##")
    ensures Desc(lines) == RemoveAll(lines[FindPrefixed(lines, "###")], "##")
  {
    var k := FindPrefixed(lines, "###");
    DescLineNotAfterTitleLine(lines);
    assert FindPrefixed(lines, "##") == k;
  }

  /** The documented layout, a `###name###` line followed by a
      `##text##` line, gives the title `name` but the description `#name#`:
      the `###` line is also the first line starting with `##`, so the
      `##text##` line is never reached. */
  lemma DocumentedLayout(name: String, text: String)
    requires name != [] && '#' !in name
    ensures Title(["###" + name + "###", "##" + text + "##"]) == name
    ensures Desc(["###" + name + "###", "##" + text + "##"]) == "#" + name + "#"
  {
    var line := "###" + name + "###";
    var lines := [line, "##" + text + "##"];
    assert StartsWith(line, "###") && StartsWith(line, "##");
    assert FindPrefixed(lines, "###") == 0 && FindPrefixed(lines, "##") == 0;
    RemoveTitleMarks(name);
    RemoveDescMarks(name);
  }

  /** Deleting `###` from `###name###` leaves the name. */
  lemma RemoveTitleMarks(name: String)
    requires '#' !in name
    ensures RemoveAll("###" + name + "###", "###") == name
  {
    assert "###" + name + "###" == "###" + (name + "###");
    RemoveAllLeading("###", name + "###");
    RemoveAllFreePrefix(name, "###", "###");
    assert "###" == "###" + [];
    RemoveAllLeading("###", []);
    assert name + [] == name;
  }

  /** Deleting `##` from `###name###` leaves one `#` on each side. */
  lemma RemoveDescMarks(name: String)
    requires name != [] && '#' !in name
    ensures RemoveAll("###" + name + "###", "##") == "#" + name + "#"
  {
    var rest := "#" + name + "###";
    assert "###" + name + "###" == "##" + rest;
    RemoveAllLeading("##", rest);
    assert rest[..2] != "##" by {
      assert rest[..2][1] == name[0];
    }
    assert rest[1..] == name + "###";
    RemoveAllFreePrefix(name, "###", "##");
    assert "###" == "##" + "#";
    RemoveAllLeading("##", "#");
    assert RemoveAll(rest, "##") == [rest[0]] + RemoveAll(rest[1..], "##");
  }

  /** Occurrences of `###` are deleted from the left without overlap: a
      line opening with four `#` keeps one of them in its title. */
  lemma ExtraHashKept(rest: String)
    requires rest == [] || rest[0] != '#'
    ensures RemoveAll("####" + rest, "###") == "#" + RemoveAll(rest, "###")
  {
    assert Rep('#', 4) == "####";
    assert Rep('#', 3) == "###";
    assert Rep('#', 1) == "#";
    RemoveAllRun('#', 4, 3, rest);
  }

  /** The title, unless it is the placeholder, keeps every character of
      its line other than `#`, in order. */
  lemma TitleKeepsText(lines: seq<String>)
    requires Title(lines) != Untitled
    ensures Without(Title(lines), '#') == Without(lines[FindPrefixed(lines, "###")], '#')
  {
    RemoveAllKeepsOtherText(lines[FindPrefixed(lines, "###")], "###", '#');
  }

  /** Candidates keep the order of the lines. */
  lemma {:induction false} VersionCandidatesAppend(a: seq<String>, b: seq<String>)
    ensures VersionCandidates(a + b) == VersionCandidates(a) + VersionCandidates(b)
    decreases |a|
  {
    if a == [] {
      assert a + b == b;
    } else {
      assert (a + b)[0] == a[0];
      assert (a + b)[1..] == a[1..] + b;
      VersionCandidatesAppend(a[1..], b);
    }
  }

  // Version-line matching

  /** A candidate `#v...` loses exactly its one leading `#` and its
      trailing `#` run, so its cleaned form starts with `v` and the
      engine's first attempt is at its first character. */
  lemma CandidateCleanStartsWithV(c: String)
    requires StartsWith(c, "#v")
    ensures var clean := StripHashes(c);
            && clean != [] && clean[0] == 'v'
            && clean == c[1..1 + |clean|]
  {
    assert c[0] == '#' && c[1] == 'v';
    assert LeadingRun(c, IsHash) == 1;
  }

  /** A version line in the documented form `#label（link）#` is a
      candidate, and cleaning and matching it gives back its version. */
  lemma VersionLineRoundTrip(v: Version)
    requires WellFormed(v)
    ensures StartsWith("#" + Format(v) + "#", "#v")
    ensures CleanMatch("#" + Format(v) + "#") == Some(v)
  {
    var f := Format(v);
    var line := "#" + f + "#";
    assert f[0] == 'v' && f[|f| - 1] == '）';
    assert line[..2] == "#v";
    assert line[1] == 'v' && line[|line| - 2] == '）';
    assert LeadingRun(line, IsHash) == 1;
    assert TrailingRun(line, IsHash, 1) == |line| - 1;
    assert line[1..|line| - 1] == f;
    MatchVersionFormat(v);
  }

  /** Matched versions keep the order of the candidates. */
  lemma MatchedVersionsAppend(a: seq<String>, b: seq<String>)
    ensures MatchedVersions(a + b) == MatchedVersions(a) + MatchedVersions(b)
  {
    FilterMapAppend(CleanMatch, a, b);
  }

  /** Every version comes from a candidate line that matches, and every
      candidate line that matches contributes its version. */
  lemma MatchedVersionsFrom(cands: seq<String>)
    ensures forall v | v in MatchedVersions(cands) ::
              exists k | 0 <= k < |cands| :: MatchVersion(StripHashes(cands[k])) == Some(v)
    ensures forall k | 0 <= k < |cands| && MatchVersion(StripHashes(cands[k])).Some? ::
              MatchVersion(StripHashes(cands[k])).value in MatchedVersions(cands)
  {
    FilterMapExact(CleanMatch, cands);
  }

  /** Every version an entry lists is well formed. */
  lemma MatchedVersionsWellFormed(cands: seq<String>)
    ensures forall v | v in MatchedVersions(cands) :: WellFormed(v)
  {
    FilterMapExact(CleanMatch, cands);
    forall v | v in MatchedVersions(cands) ensures WellFormed(v) {
      var k :| 0 <= k < |cands| && CleanMatch(cands[k]) == Some(v);
      MatchVersionSpec(StripHashes(cands[k]));
    }
  }

  // The loops of renderGames

  /** `versions.forEach(...)`: each candidate is cleaned and matched, and
      the versions that match are emitted in order. */
  method CollectVersions(cands: seq<String>) returns (versions: seq<Version>)
    ensures versions == MatchedVersions(cands)
  {
    versions := [];
    for n := 0 to |cands|
      invariant versions == FilterMap(CleanMatch, cands[..n])
    {
      var clean := StripHashes(cands[n]);
      var m := MatchVersion(clean);
      if m.Some? {
        versions := versions + [m.value];
      }
      assert cands[..n + 1][..n] == cands[..n];
      assert FilterMap(CleanMatch, cands[..n + 1]) == FilterMap(CleanMatch, cands[..n]) + Found(CleanMatch, cands[n]);
    }
    assert cands[..|cands|] == cands;
  }

  /** The body of `blocks.forEach(...)`: one block becomes one card. */
  method RenderCard(block: String) returns (card: Entry)
    ensures card == Extract(block)
  {
    var lines := Lines(block);
    var title := Title(lines);
    var desc := Desc(lines);
    var versions := CollectVersions(VersionCandidates(lines));
    card := Entry(title, desc, versions);
  }

  /** `blocks.forEach(...)`: each block gives one card, appended after the
      cards of the blocks before it. */
  method RenderBlocks(blocks: seq<String>) returns (cards: seq<Entry>)
    ensures cards == Map(Extract, blocks)
  {
    cards := [];
    for n := 0 to |blocks|
      invariant cards == Map(Extract, blocks[..n])
    {
      var card := RenderCard(blocks[n]);
      assert blocks[..n + 1][..n] == blocks[..n];
      cards := cards + [card];
    }
    assert blocks[..|blocks|] == blocks;
  }

  /** `renderGames(rawText)`: the cards of the catalog, one per non-blank
      block, in the order of the text. */
  method RenderGames(raw: String) returns (cards: seq<Entry>)
    ensures cards == Parse(raw)
  {
    var blocks := Segment(raw);
    cards := RenderBlocks(blocks);
  }
}
