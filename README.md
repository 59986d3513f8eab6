# Obsidian-to-Jekyll converter, modelled in Dafny

`scripts/obsidian_to_jekyll.py` publishes notes from an Obsidian vault as Jekyll
posts. For each Markdown file of the vault it:

1. checks that the file opens with a `---` YAML header;
2. loads the header and keeps only notes whose `publish` value is truthy;
3. rewrites the Obsidian link markers `[[target]]` and `[[target|text]]` into
   Markdown links to slugified targets;
4. runs the image pass, which would rewrite `![[name]]` markers and copy their
   images but finds no marker left (see below);
5. writes the note to `_notes/` or `_posts/`, under a name made from its date and
   the slug of its title.

This project models that text pipeline and proves what it does.

| file | module | models |
|---|---|---|
| `wrappers.dfy` | `Wrappers` | the `Option` type |
| `strings.dfy` | `Strings` | `str.isspace`, `strip`, `startswith`, `find` and `split(sep, n)` |
| `slug.dfy` | `Slug` | `slugify` |
| `wikilinks.dfy` | `Wikilinks` | `process_wikilinks` and its callback `replace_link` |
| `images.dfy` | `Images` | `process_images` and its callback `replace_image` |
| `conversion.dfy` | `Conversion` | the decisions and the output of `process_obsidian_file` |
| `batch.dfy` | `Batch` | `main`: processing every note in turn and counting what was written |

The pure functions of the script (`slugify` and the two substitutions) are Dafny
functions. A `re.sub` pass is a recursive scan that tries the pattern at the current
position. On a match it emits the replacement and resumes after the match; on a miss
it copies one character. `process_obsidian_file` is a function from a note to an
`Outcome`, which is one of:

- `Skipped`, for an early `return False`;
- `Failed`, for an exception that the `try` catches;
- `Written`, for `return True`, carrying the collection, the file name, the text
  and the images copied.

`main` is a method whose loop counts the `Written` outcomes and applies the writes,
in order, to a map from output paths (the text `_notes/<name>` or `_posts/<name>`,
not normalised) to file contents.

Two facts about the script as written are proved and worth knowing:

- **The image pass finds nothing in a note.** `process_obsidian_file` runs
  `process_wikilinks` before `process_images`. The link pattern also matches the
  `[[name]]` inside `![[name]]`, so every image marker has become `!` followed by
  a Markdown link before the image pass runs: `![name](slug(name)/)` when the name
  holds no `|`, and `![text](slug(link)/)` for `![[link|text]]`, so Obsidian's
  `![[cat.png|200]]` becomes `![200](catpng/)`. That pass then changes nothing and
  copies nothing (`Images.ImagesAfterWikilinks`, `Conversion.NoteWritten`). The
  model keeps the script's order.
- **No link marker survives the link pass.** No `[[...]]` that the pattern
  would match survives the link pass, and applying the pass twice equals applying it
  once (`Wikilinks.ProcessLeavesNoLink`, `Wikilinks.ProcessIdempotent`).

Further consequences of the code as written:

- Slugs keep `_` and non-ASCII word characters, since `\w` matches them; they are
  not limited to letters, digits and hyphens.
- A note's `date` chooses where its file is written: the date text is the start of
  the file name, and a `/` or `..` in it steers the write into another directory,
  or outside the blog altogether (see Batch.Publish under "Left out").
- The closing `---` of the header is simply the next occurrence of `---`, since the
  header is cut with `split('---', 2)`; it need not stand on a line of its own.
  `---a---b` is a delimited note with header `a`.

## Model

| member | source | states |
|---|---|---|
| Strings.IsSpace | scripts/obsidian_to_jekyll.py:13 | `str.isspace()` for one character: the full list of Unicode whitespace that Python recognises; `strip()` and `\s` both use it |
| Strings.Strip | scripts/obsidian_to_jekyll.py:13 | `str.strip()`: leading and trailing whitespace removed; what it guarantees is stated by StripSlice, StripEnds, StripPadded and StripKeepsEnds |
| Strings.StripSlice | scripts/obsidian_to_jekyll.py:13 | `strip()` returns a slice of its input, and everything cut off on either side is whitespace |
| Strings.StripEnds | scripts/obsidian_to_jekyll.py:13 | the result of `strip()` neither starts nor ends with whitespace |
| Strings.StripPadded | scripts/obsidian_to_jekyll.py:60 | `strip()` of a text padded with whitespace on both sides, whose own ends are not whitespace, is exactly that text |
| Strings.StripKeepsEnds | scripts/obsidian_to_jekyll.py:13 | a first or last character that is not whitespace stays first or last after `strip()` |
| Strings.StripChars | scripts/obsidian_to_jekyll.py:13 | every character kept by `strip()` was in its input |
| Strings.Find | scripts/obsidian_to_jekyll.py:20-21 | the index found is an occurrence with none before it; no index means no occurrence anywhere |
| Strings.SplitN | scripts/obsidian_to_jekyll.py:55 | `split(sep, n)` gives between 1 and n + 1 parts; joining them with `sep` gives the input back; each part but the last ends where the leftmost remaining `sep` starts |
| Strings.FindExtend | scripts/obsidian_to_jekyll.py:55 | text appended after the leftmost occurrence does not move it |
| Slug.IsWordChar | scripts/obsidian_to_jekyll.py:13 | the class `\w`: ASCII letters, digits and `_`, and every non-ASCII character that is neither whitespace nor one of the marks of `IsNonWordMark` |
| Slug.DropPunctuationDropsMark | scripts/obsidian_to_jekyll.py:12-13 | a combining mark such as U+0301, or another listed mark that is not whitespace, is dropped by the first substitution at either end of a text, so `slugify` ignores it (`cafe` + U+0301 gives `cafe`) |
| Slug.DropPunctuation | scripts/obsidian_to_jekyll.py:13 | `re.sub(r'[^\w\s-]', '', text)`: each character outside `[\w\s-]` removed; see DropPunctuationShape and DropPunctuationKeepsWords |
| Slug.Lower | scripts/obsidian_to_jekyll.py:13 | `str.lower()`, one character at a time; see LowerAt |
| Slug.Collapse | scripts/obsidian_to_jekyll.py:14 | `re.sub(r'[-\s]+', '-', text)`: each maximal run of `-` and whitespace replaced by one `-`; see CollapseChars, CollapseEnds and CollapseNoDoubleHyphen |
| Slug.Slugify | scripts/obsidian_to_jekyll.py:10-14 | `slugify`: the first substitution, `strip()`, `lower()` and the collapse, in the script's order; see SlugifyShape, SlugifyKeepsWords and SlugifyIdempotent |
| Slug.LowerChar | scripts/obsidian_to_jekyll.py:13 | `lower()` of one character leaves no upper case and does not change whether it is a word character, whitespace or `-` |
| Slug.LowerAt | scripts/obsidian_to_jekyll.py:13 | `lower()` keeps the length and lowers each character in place |
| Slug.DropPunctuationShape | scripts/obsidian_to_jekyll.py:13 | after `re.sub(r'[^\w\s-]', '', text)` only word characters, whitespace and `-` remain, and a kept first or last character stays first or last |
| Slug.DropPunctuationUnchanged | scripts/obsidian_to_jekyll.py:13 | text made only of `[\w\s-]` passes the first substitution unchanged |
| Slug.DropPunctuationKeepsWords | scripts/obsidian_to_jekyll.py:13 | the first substitution keeps every word character, in order |
| Slug.CollapseChars | scripts/obsidian_to_jekyll.py:14 | `re.sub(r'[-\s]+', '-', text)` yields only `-` and characters of its input that are not separators |
| Slug.CollapseEnds | scripts/obsidian_to_jekyll.py:14 | the collapse is empty exactly when its input is, and it starts (ends) with `-` exactly when its input starts (ends) with `-` or whitespace |
| Slug.CollapseNoDoubleHyphen | scripts/obsidian_to_jekyll.py:14 | the collapse never holds two `-` in a row |
| Slug.CollapseConcat | scripts/obsidian_to_jekyll.py:14 | a separator run cannot cross a non-separator, so the collapse of a concatenation is the concatenation of the collapses |
| Slug.CollapseUnchanged | scripts/obsidian_to_jekyll.py:14 | text with no whitespace and no `--` is already collapsed |
| Slug.CollapseKeepsWords | scripts/obsidian_to_jekyll.py:14 | the collapse keeps every word character, in order |
| Slug.LowerKeepsWords | scripts/obsidian_to_jekyll.py:13 | the word characters of the lowered text are the lowered word characters |
| Slug.StripKeepsWords | scripts/obsidian_to_jekyll.py:13 | `strip()` loses no word character |
| Slug.SlugifyShape | scripts/obsidian_to_jekyll.py:10-14 | every slug is made only of word characters and `-`, has no upper case and never holds `--` |
| Slug.SlugifyKeepsWords | scripts/obsidian_to_jekyll.py:10-14 | the word characters of the slug are exactly those of the input, lowered, in the same order |
| Slug.SlugifyIdempotent | scripts/obsidian_to_jekyll.py:10-14 | slugifying a slug gives it back |
| Slug.SlugHasNoSpace | scripts/obsidian_to_jekyll.py:14 | a slug holds no whitespace character |
| Slug.SlugifyKeepsLeadingHyphen | scripts/obsidian_to_jekyll.py:13-14 | `strip()` removes only whitespace, so a `-` that starts the input starts the slug |
| Slug.SlugifyKeepsTrailingHyphen | scripts/obsidian_to_jekyll.py:13-14 | likewise a `-` that ends the input ends the slug |
| Slug.LowerWord | scripts/obsidian_to_jekyll.py:13-14 | a word stays a word once lowered and passes the collapse unchanged |
| Slug.KeptAndStripped | scripts/obsidian_to_jekyll.py:13 | two words around a whitespace run pass the first substitution and `strip()` unchanged |
| Slug.LoweredAndCollapsed | scripts/obsidian_to_jekyll.py:13-14 | lowering and collapsing two words around a whitespace run joins the lowered words with one `-` |
| Slug.CollapseWords | scripts/obsidian_to_jekyll.py:14 | a separator run between two words becomes one `-` |
| Slug.CollapseRun | scripts/obsidian_to_jekyll.py:14 | a separator run before a word becomes one `-` |
| Slug.SlugifyTwoWords | scripts/obsidian_to_jekyll.py:10-14 | two words around a whitespace run slugify to the lowered words joined by `-` |
| Slug.SlugifyPunctuatedWords | scripts/obsidian_to_jekyll.py:10-14 | `slugify(a + ", " + b + "!")` is `lower(a) + "-" + lower(b)` for any words `a`, `b`; this is the shape of `slugify("Hello, World!") == "hello-world"` |
| Slug.SlugifySpacedWords | scripts/obsidian_to_jekyll.py:10-14 | outer whitespace is stripped and an inner whitespace run becomes one `-` |
| Slug.SlugifyEmpty | scripts/obsidian_to_jekyll.py:10-14 | `slugify("") == ""` |
| Wikilinks.LinkReplacement | scripts/obsidian_to_jekyll.py:18-24 | `replace_link` on the captured text: split at the first `\|` when there is one, otherwise kept whole; see ReplacementPlain and ReplacementPiped |
| Wikilinks.ProcessWikilinks | scripts/obsidian_to_jekyll.py:26 | `process_wikilinks`: the left-to-right `re.sub` scan, replacing each marker and copying other characters; see MatchLinkSpec, ProcessLeavesNoLink and ProcessIdempotent |
| Wikilinks.FirstClose | scripts/obsidian_to_jekyll.py:26 | the index found holds the first `]`; no index means no `]` |
| Wikilinks.MatchLink | scripts/obsidian_to_jekyll.py:26 | a match ends with `]]` inside the text and captures at least one character |
| Wikilinks.MatchLinkSpec | scripts/obsidian_to_jekyll.py:26 | `\[\[([^\]]+)\]\]` matches at the start of the text exactly when it opens with `[[`, then one or more characters other than `]`, then `]]`; the match found is the only one |
| Wikilinks.MatchLinkDoubled | scripts/obsidian_to_jekyll.py:26 | a match starts here exactly when the text opens with `[[`, its third character is not `]`, and the first `]` after it is doubled |
| Wikilinks.DoubledCloseSpec | scripts/obsidian_to_jekyll.py:26 | the recursive "first `]` is doubled" test agrees with looking up the first `]` |
| Wikilinks.FindBar | scripts/obsidian_to_jekyll.py:20-21 | `'\|' in link_text` holds exactly when a first `\|` is found to split at |
| Wikilinks.ReplacementPlain | scripts/obsidian_to_jekyll.py:23-24 | without `\|`, the captured text is kept verbatim (not stripped) and slugified whole |
| Wikilinks.ReplacementPiped | scripts/obsidian_to_jekyll.py:20-22 | with `\|`, the split is at the first `\|`; the text after it, stripped, is shown, and the part before it, stripped and slugified, is the target |
| Wikilinks.SlugHasNoBrackets | scripts/obsidian_to_jekyll.py:22-24 | a slug holds neither `[` nor `]` |
| Wikilinks.ReplacementParts | scripts/obsidian_to_jekyll.py:18-24 | every replacement is `[`, a display text without `]`, `](`, then a tail with no bracket at all |
| Wikilinks.ProcessReplaces | scripts/obsidian_to_jekyll.py:26 | wherever the regex matches (a `LinkSpan`: `[[`, one or more characters other than `]`, `]]`), that span is replaced by `replace_link` of its group and the scan resumes after the `]]` |
| Wikilinks.ProcessCopiesPlainText | scripts/obsidian_to_jekyll.py:26 | text in which no marker starts is copied as it is, whatever follows it |
| Wikilinks.ProcessRewritesLink | scripts/obsidian_to_jekyll.py:18-26 | a marker `[[x]]` becomes the replacement of `x`, and the rest is processed on its own |
| Wikilinks.ProcessWithoutLinks | scripts/obsidian_to_jekyll.py:26 | text without a marker comes back unchanged |
| Wikilinks.EmptyBracketsKept | scripts/obsidian_to_jekyll.py:26 | `[[]]` is not a marker and is kept |
| Wikilinks.ImageMarkerBecomesLink | scripts/obsidian_to_jekyll.py:26 | in `![[x]]` the `[[x]]` is a marker: the `!` is kept and the marker is replaced |
| Wikilinks.ImageMarkerBecomesPlainLink | scripts/obsidian_to_jekyll.py:23-26 | `![[name]]` becomes `![name](slugify(name)/)` |
| Wikilinks.ProcessStartsWithClose | scripts/obsidian_to_jekyll.py:26 | an output that starts with `]` comes from an input that starts with `]` |
| Wikilinks.DoubledCloseCopied | scripts/obsidian_to_jekyll.py:26 | a doubled first `]` in the output was already a doubled first `]` in the input |
| Wikilinks.NoLinkBeforeLinkClose | scripts/obsidian_to_jekyll.py:18-24 | no marker starts inside a replacement: the first `]` after any position in it is followed by `(` |
| Wikilinks.NoLinkJoin | scripts/obsidian_to_jekyll.py:26 | marker-free pieces joined so that no marker starts in the first one give marker-free text |
| Wikilinks.ProcessLeavesNoLink | scripts/obsidian_to_jekyll.py:26 | no marker is left in the output |
| Wikilinks.ProcessIdempotent | scripts/obsidian_to_jekyll.py:26 | applying `process_wikilinks` twice equals applying it once |
| Images.ProcessImages | scripts/obsidian_to_jekyll.py:28-43 | `process_images`: the `re.sub` scan, rewriting markers whose image exists and recording the copies; see ImageRewritten, ImageKept and CopiedAreExisting |
| Images.MatchImage | scripts/obsidian_to_jekyll.py:43 | a match of `!\[\[([^\]]+)\]\]` captures at least one character and ends with `]]` inside the text |
| Images.MatchImageMarker | scripts/obsidian_to_jekyll.py:43 | `![[name]]` is matched with `name` as its group, and the scan resumes right after it |
| Images.ImageRewritten | scripts/obsidian_to_jekyll.py:36-39 | a marker whose image exists becomes `![name](/assets/images/name)`, and its name is copied before anything copied further on |
| Images.ImageKept | scripts/obsidian_to_jekyll.py:40-41 | a marker whose image is missing is kept verbatim and nothing is copied for it |
| Images.CopiedAreExisting | scripts/obsidian_to_jekyll.py:30-43 | the copies are exactly the marker names whose image exists, in the order the scan meets them |
| Images.CopiedIff | scripts/obsidian_to_jekyll.py:30-43 | a name is copied if and only if it names a marker and its image exists |
| Images.ExistingMembers | scripts/obsidian_to_jekyll.py:36 | the names kept are exactly those in the list and in the set |
| Images.NothingExists | scripts/obsidian_to_jekyll.py:40-43 | with no image present, the text comes back unchanged and nothing is copied |
| Images.NoMarkerUnchanged | scripts/obsidian_to_jekyll.py:43 | text without image markers comes back unchanged and nothing is copied |
| Images.NoLinkNoImage | scripts/obsidian_to_jekyll.py:26-43 | text without link markers holds no image marker either |
| Images.ImagesAfterWikilinks | scripts/obsidian_to_jekyll.py:67-68 | run after `process_wikilinks`, `process_images` changes nothing and copies nothing |
| Conversion.Truthy | scripts/obsidian_to_jekyll.py:63 | Python truthiness of a loaded value, as `if not frontmatter.get('publish', False)` tests it |
| Conversion.DateText | scripts/obsidian_to_jekyll.py:71-73 | the date part of the file name: a `datetime` formatted with `%Y-%m-%d`, any other value with `str()` |
| Conversion.NoteFilename | scripts/obsidian_to_jekyll.py:71-76 | `f"{date}-{slugify(title)}.md"`, with today as the default date; see FilenameSlug |
| Conversion.ProcessNote | scripts/obsidian_to_jekyll.py:45-98 | `process_obsidian_file`: skipped, failed or written, in the script's order of checks; see NoteWritten, WrittenOnlyPublished and the Note* lemmas |
| Conversion.DelimitedSplit | scripts/obsidian_to_jekyll.py:55 | `split('---', 2)` of `---header---rest`, with no `---` in the header, gives `""`, the header and the rest |
| Conversion.SplitDelimited | scripts/obsidian_to_jekyll.py:55-57 | conversely, content that starts with `---` and splits into three parts is delimited by its first two `---` |
| Conversion.ClosingDelimiterMissing | scripts/obsidian_to_jekyll.py:55-57 | content starting with `---` splits into fewer than three parts exactly when no second `---` follows |
| Conversion.NoteWithoutClosing | scripts/obsidian_to_jekyll.py:55-57 | content with no second `---` is skipped |
| Conversion.NoteHeaderFails | scripts/obsidian_to_jekyll.py:59-63 | a header that cannot be loaded, or is not a mapping (so `.get` raises), makes the note fail; a load error carries the loader's message |
| Conversion.NoteNotPublished | scripts/obsidian_to_jekyll.py:63-64 | a note whose `publish` is absent or falsy is skipped, whatever else its header holds |
| Conversion.NoteTitleNotText | scripts/obsidian_to_jekyll.py:75-76 | a published note whose title is present but not text fails when the title is slugified |
| Conversion.NoteWritten | scripts/obsidian_to_jekyll.py:60-94 | a delimited, loadable, published note with a text title is written to `_notes` if its `type` is `note` and to `_posts` otherwise, named `date-slug.md`, with text `---\n` + dump + `---\n\n` + the stripped body with its links rewritten, and nothing copied |
| Conversion.WrittenOnlyPublished | scripts/obsidian_to_jekyll.py:50-94 | anything written came from a delimited note whose header loads as a mapping with a truthy `publish` and a text title, and nothing is copied |
| Conversion.WrittenBodyHasNoLink | scripts/obsidian_to_jekyll.py:67-91 | the written body holds no link marker |
| Conversion.FilenameSlug | scripts/obsidian_to_jekyll.py:71-76 | the file name is the date text, `-`, the slug of the title and `.md`, and its middle part is a slug |
| Conversion.TwoWordLinkBody | scripts/obsidian_to_jekyll.py:60-67 | a body holding a link to a two-word note, padded with line breaks, becomes `[c d](c-d/)`, lowered |
| Conversion.PlainLinkRewritten | scripts/obsidian_to_jekyll.py:23-26 | a lone marker without `\|` becomes `[x](slugify(x)/)` |
| Conversion.TwoWordNoteExample | scripts/obsidian_to_jekyll.py:45-94 | a note with `publish: true`, a `date`, a two-word `title`, `type: note` and a body linking a two-word note is written to `_notes` as `date-a-b.md` with the link rewritten and nothing copied |
| Conversion.ExampleParts | scripts/obsidian_to_jekyll.py:71-76 | a note dated `day` and titled with two words is named `day-a-b.md`, lowered |
| Batch.CountWritten | scripts/obsidian_to_jekyll.py:119-122 | the number of notes written, which is how often line 121 sees `True`; see CountBounded, CountZero and CountAll |
| Batch.Publish | scripts/obsidian_to_jekyll.py:84-91 | the blog after the writes, in processing order, keyed by the output path as unnormalised text (see "Left out"); see PublishedPaths, UntouchedPath and LastWriteWins |
| Batch.Convert | scripts/obsidian_to_jekyll.py:100-124 | with the vault or the blog directory missing, nothing is counted and nothing is written; otherwise the count is the number of notes written and the blog is the old one with every write applied in order |
| Batch.CountBounded | scripts/obsidian_to_jekyll.py:119-122 | the count never exceeds the number of files |
| Batch.CountZero | scripts/obsidian_to_jekyll.py:119-122 | the count is zero exactly when no file is written |
| Batch.CountAll | scripts/obsidian_to_jekyll.py:119-122 | the count equals the number of files exactly when every file is written |
| Batch.PublishedPaths | scripts/obsidian_to_jekyll.py:84-91 | a path of the resulting blog was there before or is written to by some note |
| Batch.UntouchedPath | scripts/obsidian_to_jekyll.py:84-91 | a path that no note writes keeps its old contents |
| Batch.LastWriteWins | scripts/obsidian_to_jekyll.py:90-91 | when two notes write the same path, the last one processed decides its contents |

## Left out

- Slug.Slugify: Unicode normalisation `unicodedata.normalize('NFKD', ...)` is taken as the
  identity, so text whose normal form differs (accented letters, ligatures,
  full-width forms) is not modelled faithfully.
- Slug.IsWordChar: ASCII letters, digits and `_` are exact. A non-ASCII character
  counts as a word character unless it is whitespace or one of the marks
  `Slug.IsNonWordMark` lists: C1 controls U+0080-U+009F, the soft hyphen U+00AD,
  the combining diacritical marks U+0300-U+036F, U+200B-U+200F and U+FEFF. Python's
  `\w` (`isalnum()` or `_`) also rejects every other combining mark (for example
  the Devanagari and Thai vowel signs and viramas, so the model is wrong for most
  Indic and Thai words), every other format character, and non-ASCII punctuation
  and symbols; the model keeps those, where the script deletes them.
- Slug.Lower: Unicode `lower()` is not modelled; only `A`-`Z` are lowered.
- `yaml.safe_load` and `yaml.dump` are parameters of the model (`Env.load`,
  `Env.dump`). The header is a record of the four keys the script reads plus the
  other entries. Floats, lists and nested mappings are `Other`, known only by their
  truth value and their `str()`.
- `datetime.now().strftime('%Y-%m-%d')` is the parameter `Env.today`, already
  formatted.
- The file system is left out: reading the note, `exists`, `mkdir`, `copy2`, the
  write itself and `rglob`. Image existence is the set `Env.existing`. The copies
  are returned as a list of names, and the writes are entries of a map from paths
  to contents. The order in which `rglob` yields the files is an input of
  `Batch.Convert`.
- Reading the note happens before the `try` block: a file that cannot be read or
  decoded raises out of the converter. The model starts from the note's text.
- Conversion.ProcessNote and Batch.Convert: a failing `mkdir` (line 87), `copy2`
  (line 38) or write (lines 90-91) raises inside the `try` block, so the script
  prints an error and does not count the note. The model always writes and counts
  such a note. One such case comes from the note itself: a `date` whose text holds
  `/` between plain segments (for example the string `2024/01/15`) gives a file name
  pointing into a sub-directory of `_posts` that line 87 does not create, so the
  write fails unless that directory already exists.
- Batch.Publish: output paths are keys of a map, as the text `Directory + "/" +
  filename`, not normalised and not resolved. The script's path join (line 84)
  does resolve them. A `date` starting with `/` (such as `/tmp/x`) makes pathlib
  drop the output directory, so the script writes `/tmp/x-<slug>.md` outside the
  blog. A `date` with a `..` segment (such as `../x`) makes it write outside
  `_posts`, and that write succeeds because `_posts/..` exists. The map records
  both writes under the raw text (`_posts//tmp/x-a.md`, `_posts/../x-a.md`).
  Publish, Batch.UntouchedPath and Batch.LastWriteWins therefore treat two
  spellings of one file as two files, and an absolute write as one under
  `_posts`.
- Console messages are left out.
- Strings.SplitN: states the part count, that joining the parts gives the input
  back, and where each part but the last ends. It does not state that the last
  part holds no separator when fewer than n + 1 parts come out; for the header
  split, Conversion.ClosingDelimiterMissing states that case directly.
- Slug.SlugifyPunctuatedWords, Slug.SlugifySpacedWords and Conversion.TwoWordNoteExample state
  examples (`slugify("Hello, World!") == "hello-world"`, a note titled
  `Hello World` linking `[[Other Note]]`) for any words in place of the literal
  ones; the literal instances are not proved separately.
