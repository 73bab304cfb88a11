# Game catalog parser, modelled in Dafny

`renderGames(rawText, containerId)` in `parser.js` turns a hand-written
catalog into one display card per game. The text is cut at every `@` into
blocks. Each block is cut into lines, and three kinds of line are picked out:

- the first line starting with `###` gives the title, with every `###` deleted;
  when there is no such line, or nothing is left, the title is `未命名`;
- the first line starting with `##` gives the description, with every `##` deleted;
- every line starting with `#v` is a version line.

Each version line loses its leading and trailing `#` runs. It is then matched
against `/(v[^（]+)（(.+)）/`, which yields a label and a link. Lines that do
not match are skipped.

The model keeps the source's shape:

- `Strings` (`strings.dfy`) holds the JavaScript string primitives the parser
  uses: `trim`, `split`, `startsWith`, global deletion of a literal, and the
  `#`-run stripping.
- `VersionLine` (`version_line.dfy`) holds the regular expression. It is a
  hand-written search that follows the backtracking of JavaScript's engine,
  and it is proved against a declarative description of what the expression
  accepts and which match the engine reports: the leftmost start, the longest
  label, then the longest link.
- `GameParser` (`game_parser.dfy`) holds the field extraction as pure
  functions, with `Parse` the whole pipeline. The two `forEach` loops are
  methods proved equal to those functions.
- `Sequences` (`sequences.dfy`) holds the two list shapes the loops build,
  a `map` and a `forEach` that pushes only on a match, with their lemmas
  stated for any element function.

Behaviour of `parser.js` that the model keeps as written:

- In the layout the format uses, a `###name###` line followed by a `##text##`
  line, the `###` line is also the first line that starts with `##`. The
  description is therefore `#name#`, and the `##text##` line is never read
  (`GameParser.DocumentedLayout`).
- Only full-width parentheses are recognised. A version line written with
  `(` and `)` yields nothing.
- The label is not trimmed and may hold anything but `（`. The link runs to
  the last `）` before the first line terminator (`\r`, U+2028 or U+2029 can
  still occur inside a line, which is cut only at `\n`), and it is not
  checked to be a URL.
- `replace(/###/g, "")` deletes occurrences from the left without overlap,
  so a line opening with `####` keeps one `#` in its title
  (`Strings.RemoveAllRun`, `GameParser.ExtraHashKept`).
- There is no list of leftover lines. A `#v` line that does not match is
  dropped, and so is any other unclassified line.
- `parser for android.js`, a later variant with a looser format, is not part
  of this model.

## Model

| member | source | states |
|---|---|---|
| Strings.StartsWith | parser.js:9-11 | a string that starts with the prefix is the prefix followed by the rest of the string |
| Strings.StartsWithAppend | parser.js:9-11 | every string made of the prefix followed by anything starts with the prefix |
| Strings.Trim | parser.js:3 | the result is the input between its maximal leading and trailing runs of ECMAScript white space and line terminators; so it has no white space at either end, and it is empty exactly when the input is all white space |
| Strings.Split | parser.js:3 | `split` on one character always gives at least one piece |
| Strings.SplitThenJoin | parser.js:3 | joining the pieces with the separator gives back the text |
| Strings.JoinThenSplit | parser.js:3 | splitting pieces joined by the separator gives back the pieces when none holds the separator |
| Strings.SplitAvoidsSep | parser.js:3 | no piece holds the separator |
| Strings.SplitWithoutSep | parser.js:3 | a text without the separator is a single piece |
| Strings.SplitAfterPiece | parser.js:3 | a separator-free piece followed by the separator starts a new piece |
| Strings.SplitAppend | parser.js:3 | the pieces of `a + sep + b` are the pieces of a followed by those of b |
| Strings.SplitKeepsChar | parser.js:3 | every character other than the separator lands in some piece |
| Strings.SplitPieceChars | parser.js:3 | every character of a piece comes from the text |
| Strings.TrimmedNonEmpty | parser.js:3 | `.map(trim).filter(nonempty)` keeps only non-empty trimmed strings and never more than there were pieces |
| Strings.SplitTrimmed | parser.js:3-6 | `split(sep).map(trim).filter(nonempty)` gives non-empty, trimmed strings free of the separator: blocks free of `@`, lines free of line feeds |
| Strings.TrimmedNonEmptyKeeps | parser.js:3 | every piece whose trimmed form is not empty is kept |
| Strings.TrimmedNonEmptyFrom | parser.js:3 | every kept string is the trimmed form of some piece |
| Strings.TrimmedNonEmptyAvoids | parser.js:3 | a character absent from all pieces is absent from every kept string |
| Strings.TrimmedNonEmptyAppend | parser.js:3 | trimming and filtering works piece by piece and keeps order |
| Strings.SplitTrimmedEmpty | parser.js:3 | splitting, trimming and filtering leaves nothing exactly when the text holds only white space and separators |
| Strings.StripHashes | parser.js:17 | once its `#` runs are deleted the line neither starts nor ends with `#`; it is the line minus its leading `#` run and its trailing `#` run, and only `#` was removed |
| Strings.RemoveAll | parser.js:9-10 | global deletion of a literal never makes the text longer |
| Strings.RemoveAllKeepsOtherText | parser.js:9-10 | deleting a run pattern such as `###` removes only `#`: every other character survives, in order |
| Strings.RemoveAllLeading | parser.js:9-10 | an occurrence at the front of the text is deleted |
| Strings.RemoveAllFreePrefix | parser.js:9-10 | text that cannot start the pattern is kept unchanged |
| Strings.RemoveAllRun | parser.js:9-10 | a run of n copies of a character, before text not starting with it, loses its occurrences of an m-copy pattern from the left without overlap: n % m copies are left, then the rest is scanned on its own; with RemoveAllFreePrefix this fixes the result on every text |
| VersionLine.MatchAt | parser.js:18 | an attempt at start i reports a span that starts at i, with the `（` and the `）` after it, inside the line |
| VersionLine.MatchAtSpec | parser.js:18 | an attempt at start i succeeds exactly when the expression matches there; it then reports the only possible `（` (the first after i) and the last possible `）` |
| VersionLine.MatchFrom | parser.js:18 | a match found from a start on begins at or after that start and lies inside the line, with `v`, `（` and `）` at the reported positions, in that order |
| VersionLine.MatchFromSpec | parser.js:18 | the search reports the leftmost start where the expression matches, and nothing when it matches at no later start |
| VersionLine.FindMatch | parser.js:18 | a reported match lies inside the line, with `v`, `（` and `）` at the reported positions, in that order |
| VersionLine.FindMatchSpec | parser.js:18 | `match` reports the preferred match (leftmost, longest label, longest link), and null exactly when the expression matches nowhere |
| VersionLine.PreferredUnique | parser.js:18 | the preferred match is unique, so the report is determined by the line |
| VersionLine.AcceptedWellFormed | parser.js:18-21 | the two groups of any match form a well-formed version: label starting with `v` plus one more character, no `（` in the label, a non-empty one-line link |
| VersionLine.MatchVersion | parser.js:18-21 | the label, the link and the two parentheses fit in the line |
| VersionLine.MatchVersionSpec | parser.js:18-21 | `match[1]` and `match[2]` are the groups of the preferred match and are well formed; there is no result exactly when the expression matches nowhere |
| VersionLine.NoFullWidthNoVersion | parser.js:18 | a line without `（` never yields a version |
| VersionLine.HalfWidthExample | parser.js:18 | `v1.0.8下載(https://ex.com/a)`, written with half-width parentheses, yields nothing |
| VersionLine.MatchVersionFormat | parser.js:18-21 | every well-formed version read back from `label（link）` is itself; the link comes back whole even when it holds `（` or `）` |
| GameParser.Segment | parser.js:3 | every block is non-empty, trimmed and free of `@` |
| GameParser.Lines | parser.js:6 | every line of a block is non-empty, trimmed and free of line feeds |
| GameParser.SegmentAppend | parser.js:3 | the blocks of `a@b` are the blocks of a followed by those of b |
| GameParser.SegmentWithoutSeparator | parser.js:3 | a text without `@` is one block, its trimmed form, unless it is blank |
| GameParser.LinesEmpty | parser.js:6 | a block has no lines exactly when it is blank |
| GameParser.SegmentBlocksHaveLines | parser.js:3-6 | every block the segmenter keeps has at least one line |
| GameParser.FindPrefixed | parser.js:9-10 | `find` returns the first line with the prefix: it has the prefix and no earlier line has it |
| GameParser.Title | parser.js:9 | the title is never empty; it is `未命名` when no line starts with `###`; when the first `###` line keeps some text once every `###` is deleted, the title is that text, and otherwise it is `未命名` |
| GameParser.ExtraHashKept | parser.js:9 | deleting `###` from a line opening with `####` leaves one `#` in front of the rest |
| GameParser.TitleKeepsText | parser.js:9 | a real title keeps every character of its line other than `#`, in order |
| GameParser.Desc | parser.js:10 | the description is empty when no line starts with `##`; otherwise it is the first `##` line with every `##` deleted |
| GameParser.DescLineNotAfterTitleLine | parser.js:9-10 | a `###` line also starts with `##`, so the description line never comes after the title line |
| GameParser.DescFromTitleLine | parser.js:9-10 | when no `##` line precedes the title line, the description is the title line with every `##` deleted |
| GameParser.DocumentedLayout | parser.js:9-10 | for `###name###` then `##text##` (name free of `#`), the title is `name` and the description is `#name#` |
| GameParser.RemoveTitleMarks | parser.js:9 | deleting `###` from `###name###` leaves `name` |
| GameParser.RemoveDescMarks | parser.js:10 | deleting `##` from `###name###` leaves `#name#` |
| GameParser.VersionCandidates | parser.js:11 | every candidate starts with `#v`, and there are no more candidates than lines |
| GameParser.VersionCandidatesExact | parser.js:11 | the candidates are exactly the lines that start with `#v` |
| GameParser.VersionCandidatesAppend | parser.js:11 | filtering keeps the order of the lines |
| GameParser.CandidateCleanStartsWithV | parser.js:11-17 | a cleaned candidate is non-empty, starts with `v`, and is a stretch of the candidate that begins at its second character: only the one leading `#` goes at the front |
| GameParser.VersionLineRoundTrip | parser.js:11-21 | a line `#label（link）#` built from a well-formed version is a candidate, and cleaning and matching it gives back that version |
| GameParser.CleanMatch | parser.js:17-18 | a candidate that yields a version yields a well-formed one, whose label and link fit in the line |
| GameParser.MatchedVersions | parser.js:15-24 | each candidate yields at most one version |
| GameParser.MatchedVersionsAppend | parser.js:15-24 | versions keep the order of their candidate lines |
| GameParser.MatchedVersionsFrom | parser.js:15-24 | every version comes from a matching candidate, and every matching candidate contributes its version; the others are dropped |
| GameParser.MatchedVersionsWellFormed | parser.js:18-21 | every version an entry lists is well formed |
| GameParser.Extract | parser.js:6-11 | every entry has a non-empty title |
| GameParser.Parse | parser.js:3-5 | there is one entry per non-blank block, and every entry has a title |
| GameParser.ParseEntries | parser.js:3-5 | entry i is the entry of block i |
| GameParser.ParseEmpty | parser.js:3 | a text yields no entry exactly when it holds only white space and `@` |
| GameParser.ParseAppend | parser.js:3-5 | the entries of `a@b` are those of a followed by those of b |
| GameParser.CollectVersions | parser.js:15-24 | the `versions.forEach` loop emits exactly the matched versions, in candidate order |
| GameParser.RenderCard | parser.js:6-25 | the body of `blocks.forEach` produces the entry of its block |
| GameParser.RenderBlocks | parser.js:5-28 | the `blocks.forEach` loop produces one card per block, in block order |
| GameParser.RenderGames | parser.js:1-29 | `renderGames` produces the cards of `Parse` of the text |

## Left out

- The DOM (parser.js:2 and 27) is not modelled. The model returns the cards rather than appending their markup to `container.innerHTML`. It therefore does not capture appending to content already in the container, or the `TypeError` the first block raises when the container id is missing.
- The HTML templates (parser.js:13-14, 22, 25) are not modelled. `Entry` carries the title, the description and the versions. The templates write a `<p>` for the description only when it is non-empty, and they interpolate without escaping.
- Strings are sequences of Unicode scalar values, whereas JavaScript strings are sequences of UTF-16 code units. A JavaScript string holding a lone surrogate therefore has no counterpart in the model. All characters the parser tests for are in the Basic Multilingual Plane, and the expression has no `u` flag, so for other text only lengths differ for characters outside that plane.
- Regular expressions in general are not modelled. Only `/(v[^（]+)（(.+)）/` and `/^#+|#+$/g` are, each by its own function.
- Strings.RemoveAll: requires a non-empty pattern; the parser only deletes `###` and `##`.
- VersionLine.MatchVersion: its own contract gives only a length bound; what it means is stated by VersionLine.MatchVersionSpec and VersionLine.MatchVersionFormat.
- GameParser.MatchedVersions: its own contract gives only the count bound; the membership and well-formedness facts are stated by GameParser.MatchedVersionsFrom and GameParser.MatchedVersionsWellFormed.
