/** The decision and formatting logic of `process_obsidian_file`
    (scripts/obsidian_to_jekyll.py:45-98): whether a note is published, and if so
    under which name, in which collection and with which text. Parsing and dumping
    YAML, the clock and the file system are parameters (`Env`); the exceptions the
    `try` block catches become `Failed` outcomes. */
module Conversion {
  import opened Wrappers
  import opened Strings
  import opened Slug
  import opened Wikilinks
  import opened Images

  // ----- YAML values -----

  /** A value a YAML header can hold. Floats, lists and mappings are `Other`,
      known only by their truth value and their `str()`. */
  datatype Value =
    | Null
    | Bool(b: bool)
    | Int(i: int)
    | Str(s: string)
    | Date(day: string)               // a `date`; `day` is its ISO form YYYY-MM-DD
    | DateTime(day: string, time: string)   // a `datetime`; `time` is HH:MM:SS
    | Other(truthy: bool, text: string)

  /** Python truthiness, as `if not frontmatter.get('publish', False)` tests it. */
  predicate Truthy(v: Value) {
    match v
    case Null => false
    case Bool(b) => b
    case Int(i) => i != 0
    case Str(s) => s != ""
    case Date(_) => true
    case DateTime(_, _) => true
    case Other(t, _) => t
  }

  function Digit(d: nat): char
    requires d < 10
  {
    "0123456789"[d]
  }

  /** The decimal digits of `n`. */
  function NatText(n: nat): string
    decreases n
  {
    if n < 10 then [Digit(n)] else NatText(n / 10) + [Digit(n % 10)]
  }

  /** `str(v)`, as an f-string formats a value. */
  function Render(v: Value): string {
    match v
    case Null => "None"
    case Bool(b) => if b then "True" else "False"
    case Int(i) => if i < 0 then "-" + NatText(-i) else NatText(i)
    case Str(s) => s
    case Date(day) => day
    case DateTime(day, time) => day + " " + time
    case Other(_, text) => text
  }

  /** The date part of the file name: a `datetime` is formatted with `%Y-%m-%d`,
      anything else is formatted with `str()`. */
  function DateText(v: Value): string {
    match v
    case DateTime(day, _) => day
    case _ => Render(v)
  }

  // ----- the header -----

  /** A header that loaded as a mapping: the four keys the converter reads, each
      absent or present, and the rest of the mapping. */
  datatype Frontmatter = Frontmatter(
    publish: Option<Value>,
    date: Option<Value>,
    title: Option<Value>,
    kind: Option<Value>,   // the `type` key
    others: map<string, Value>)

  /** What `yaml.safe_load` makes of a header: it raises, or yields something that
      is not a mapping (e.g. `None` for an empty header), or a mapping. */
  datatype Loaded = LoadError(message: string) | NotMapping | Mapping(fm: Frontmatter)

  /** What the converter takes from outside: YAML loading and dumping, today's date
      already formatted, and the image names present in the vault. */
  datatype Env = Env(
    load: string -> Loaded,
    dump: Frontmatter -> string,
    today: string,
    existing: set<string>)

  datatype Collection = Notes | Posts

  /** The directory of a collection under the blog. */
  function Directory(c: Collection): string {
    match c
    case Notes => "_notes"
    case Posts => "_posts"
  }

  datatype Skip = NoOpeningDelimiter | NoClosingDelimiter | NotPublished

  datatype Failure = HeaderUnreadable(message: string) | HeaderNotMapping | TitleNotText

  /** The result of processing one note. `process_obsidian_file` returns `True`
      exactly for `Written`. */
  datatype Outcome =
    | Skipped(reason: Skip)
    | Failed(failure: Failure)
    | Written(collection: Collection, filename: string, text: string, copied: seq<string>)

  // ----- splitting off the header -----

  /** `content` is `---`, then a header holding no `---`, then `---`, then the rest.
      The header may not end in `-` either, since the closing delimiter would then
      start one character earlier. */
  predicate Delimited(content: string, header: string, rest: string) {
    content == "---" + header + "---" + rest && Find(header + "---", "---") == Some(|header|)
  }

  /** `content.split('---', 2)` of delimited content gives the empty text before the
      opening delimiter, the header and the rest. */
  lemma DelimitedSplit(content: string, header: string, rest: string)
    requires Delimited(content, header, rest)
    ensures SplitN(content, "---", 2) == ["", header, rest]
  {
    assert content[..3] == "---";
    var tail := content[3..];
    assert tail == (header + "---") + rest;
    FindExtend(header + "---", "---", rest, |header|);
    assert tail[..|header|] == header;
    assert tail[|header| + 3..] == rest;
    assert SplitN(tail[|header| + 3..], "---", 0) == [rest];
    assert SplitN(tail, "---", 1) == [header, rest];
  }

  /** Conversely, content that starts with `---` and splits into three parts is
      delimited by its first two `---`. */
  lemma SplitDelimited(content: string)
    requires StartsWith(content, "---") && |SplitN(content, "---", 2)| == 3
    ensures var parts := SplitN(content, "---", 2);
      parts[0] == "" && Delimited(content, parts[1], parts[2])
  {
    var parts := SplitN(content, "---", 2);
    var tail := content[3..];
    assert content[..|"---"|] == "---";
    var more := SplitN(tail, "---", 1);
    assert parts == [""] + more;
    assert Join(more, "---") == tail;
    assert Join(more[1..], "---") == more[1];
    assert content == "---" + tail;
  }

  /** Content that starts with `---` splits into fewer than three parts exactly when
      no second `---` follows the first. */
  lemma ClosingDelimiterMissing(content: string)
    requires StartsWith(content, "---")
    ensures |SplitN(content, "---", 2)| < 3 <==> Find(content[3..], "---").None?
  {
    assert content[..|"---"|] == "---";
  }

  // ----- one note -----

  /** `process_obsidian_file` for a note with file stem `stem` and text `content`. */
  function ProcessNote(stem: string, content: string, env: Env): Outcome {
    if !StartsWith(content, "---") then Skipped(NoOpeningDelimiter)
    else
      var parts := SplitN(content, "---", 2);
      if |parts| < 3 then Skipped(NoClosingDelimiter)
      else match env.load(parts[1])
        case LoadError(message) => Failed(HeaderUnreadable(message))
        case NotMapping => Failed(HeaderNotMapping)
        case Mapping(fm) =>
          var body := Strip(parts[2]);
          if !Truthy(fm.publish.GetOr(Bool(false))) then Skipped(NotPublished)
          else
            var linked := ProcessWikilinks(body);
            var imaged := ProcessImages(linked, env.existing);
            match fm.title.GetOr(Str(stem))
            case Str(title) =>
              var filename := NoteFilename(fm, env.today, title);
              var collection := if fm.kind == Some(Str("note")) then Notes else Posts;
              Written(collection, filename, "---\n" + env.dump(fm) + "---\n\n" + imaged.text, imaged.copied)
            case _ => Failed(TitleNotText)
  }

  /** The file name of a published note: its date (today when absent), a hyphen, the
      slug of its title (the file stem when absent), and `.md`. */
  function NoteFilename(fm: Frontmatter, today: string, title: string): string {
    DateText(fm.date.GetOr(Str(today))) + "-" + Slugify(title) + ".md"
  }

  /** A delimited note whose header loads as a mapping with a truthy `publish` and a
      text title is written: into `_notes` if its `type` is `note` and `_posts`
      otherwise, under its date-and-slug name, as `---`, the dumped header, `---`, a
      blank line and the stripped body with its links rewritten. The image pass has
      nothing left to do, so the text holds no image path and nothing is copied. */
  lemma NoteWritten(stem: string, content: string, header: string, rest: string, env: Env, fm: Frontmatter, title: string)
    requires Delimited(content, header, rest)
    requires env.load(header) == Mapping(fm)
    requires Truthy(fm.publish.GetOr(Bool(false)))
    requires fm.title.GetOr(Str(stem)) == Str(title)
    ensures ProcessNote(stem, content, env) ==
              Written(if fm.kind == Some(Str("note")) then Notes else Posts,
                      NoteFilename(fm, env.today, title),
                      "---\n" + env.dump(fm) + "---\n\n" + ProcessWikilinks(Strip(rest)),
                      [])
  {
    DelimitedSplit(content, header, rest);
    ImagesAfterWikilinks(Strip(rest), env.existing);
  }

  /** Content not starting with `---` is skipped. */
  lemma NoteWithoutOpening(stem: string, content: string, env: Env)
    requires !StartsWith(content, "---")
    ensures ProcessNote(stem, content, env) == Skipped(NoOpeningDelimiter)
  {
  }

  /** Content with a single `---` at its start is skipped. */
  lemma NoteWithoutClosing(stem: string, content: string, env: Env)
    requires StartsWith(content, "---") && Find(content[3..], "---").None?
    ensures ProcessNote(stem, content, env) == Skipped(NoClosingDelimiter)
  {
    ClosingDelimiterMissing(content);
  }

  /** A delimited note whose header cannot be loaded, or is not a mapping, fails. */
  lemma NoteHeaderFails(stem: string, content: string, header: string, rest: string, env: Env)
    requires Delimited(content, header, rest) && !env.load(header).Mapping?
    ensures ProcessNote(stem, content, env).Failed?
    ensures env.load(header).LoadError? ==>
              ProcessNote(stem, content, env) == Failed(HeaderUnreadable(env.load(header).message))
  {
    DelimitedSplit(content, header, rest);
  }

  /** A delimited note whose `publish` is absent or falsy is skipped, whatever else
      its header holds. */
  lemma NoteNotPublished(stem: string, content: string, header: string, rest: string, env: Env, fm: Frontmatter)
    requires Delimited(content, header, rest) && env.load(header) == Mapping(fm)
    requires fm.publish.None? || !Truthy(fm.publish.value)
    ensures ProcessNote(stem, content, env) == Skipped(NotPublished)
  {
    DelimitedSplit(content, header, rest);
  }

  /** A published note whose title is present but not text (`None`, a number, a
      date ...) fails when the title is slugified, before anything is written. */
  lemma NoteTitleNotText(stem: string, content: string, header: string, rest: string, env: Env, fm: Frontmatter)
    requires Delimited(content, header, rest) && env.load(header) == Mapping(fm)
    requires Truthy(fm.publish.GetOr(Bool(false)))
    requires fm.title.Some? && !fm.title.value.Str?
    ensures ProcessNote(stem, content, env) == Failed(TitleNotText)
  {
    DelimitedSplit(content, header, rest);
  }

  /** Everything written comes from a delimited note whose header loads as a mapping
      with a truthy `publish` and a text title; nothing is copied. */
  lemma WrittenOnlyPublished(stem: string, content: string, env: Env)
    requires ProcessNote(stem, content, env).Written?
    ensures StartsWith(content, "---") && |SplitN(content, "---", 2)| == 3
    ensures var parts := SplitN(content, "---", 2);
      && Delimited(content, parts[1], parts[2])
      && env.load(parts[1]).Mapping?
      && Truthy(env.load(parts[1]).fm.publish.GetOr(Bool(false)))
      && env.load(parts[1]).fm.title.GetOr(Str(stem)).Str?
    ensures ProcessNote(stem, content, env).copied == []
  {
    SplitDelimited(content);
    var parts := SplitN(content, "---", 2);
    ImagesAfterWikilinks(Strip(parts[2]), env.existing);
  }

  /** The written body holds no link marker: every `[[...]]` that the pattern
      catches has been rewritten. */
  lemma WrittenBodyHasNoLink(stem: string, content: string, header: string, rest: string, env: Env, fm: Frontmatter, title: string)
    requires Delimited(content, header, rest)
    requires env.load(header) == Mapping(fm)
    requires Truthy(fm.publish.GetOr(Bool(false)))
    requires fm.title.GetOr(Str(stem)) == Str(title)
    ensures var out := ProcessNote(stem, content, env);
      && out.Written?
      && out.text == "---\n" + env.dump(fm) + "---\n\n" + ProcessWikilinks(Strip(rest))
      && NoLink(ProcessWikilinks(Strip(rest)))
  {
    NoteWritten(stem, content, header, rest, env, fm, title);
    ProcessLeavesNoLink(Strip(rest));
  }

  /** The slug part of a written file name is a slug. */
  lemma FilenameSlug(fm: Frontmatter, today: string, title: string)
    ensures var name := NoteFilename(fm, today, title);
      var date := DateText(fm.date.GetOr(Str(today)));
      && name == date + "-" + Slugify(title) + ".md"
      && IsSlug(name[|date| + 1..|name| - 3])
  {
    var date := DateText(fm.date.GetOr(Str(today)));
    var name := NoteFilename(fm, today, title);
    assert name[|date| + 1..|name| - 3] == Slugify(title);
    SlugifyShape(title);
  }

  // ----- a whole note -----

  /** A link to a two-word note, padded with line breaks, as in the example note
      below. */
  lemma TwoWordLinkBody(c: string, d: string)
    requires IsWord(c) && IsWord(d)
    ensures ProcessWikilinks(Strip("\n\n[[" + c + " " + d + "]]\n")) ==
              "[" + c + " " + d + "](" + Lower(c) + "-" + Lower(d) + "/)"
  {
    var x := c + " " + d;
    var link := "[[" + x + "]]";
    PaddedLink(c, d);
    WordsHaveNoBracket(c, d);
    PlainLinkRewritten(x);
    SlugifyTwoWords(c, " ", d);
    LinkRegroup(c, d, Lower(c), Lower(d));
  }

  // Regrouping of a concatenation, stated over plain variables so that callers
  // do not make the solver search for it on long terms.
  lemma LinkRegroup(c: string, d: string, lc: string, ld: string)
    ensures "[" + (c + " " + d) + "](" + (lc + "-" + ld) + "/)" == "[" + c + " " + d + "](" + lc + "-" + ld + "/)"
  {
  }

  lemma PaddedLink(c: string, d: string)
    ensures Strip("\n\n[[" + c + " " + d + "]]\n") == "[[" + (c + " " + d) + "]]"
  {
    var link := "[[" + (c + " " + d) + "]]";
    assert "\n\n[[" + c + " " + d + "]]\n" == "\n\n" + link + "\n";
    assert link[0] == '[' && link[|link| - 1] == ']';
    StripPadded("\n\n", link, "\n");
  }

  lemma WordsHaveNoBracket(c: string, d: string)
    requires IsWord(c) && IsWord(d)
    ensures var x := c + " " + d; x != [] && ']' !in x && '|' !in x
  {
    var x := c + " " + d;
    forall k | 0 <= k < |x| ensures x[k] != ']' && x[k] != '|' {
      if k < |c| { assert x[k] == c[k]; }
      else if k > |c| { assert x[k] == d[k - |c| - 1]; }
    }
  }

  lemma PlainLinkRewritten(x: string)
    requires x != [] && ']' !in x && '|' !in x
    ensures ProcessWikilinks("[[" + x + "]]") == "[" + x + "](" + Slugify(x) + "/)"
  {
    var link := "[[" + x + "]]";
    ProcessRewritesLink(x, []);
    assert link + [] == link;
    assert ProcessWikilinks([]) == [];
    ReplacementPlain(x);
    assert LinkReplacement(x) + [] == LinkReplacement(x);
  }

  /** An example conversion: a note whose header says `publish: true`, a two-word
      `title` such as `Hello World`, a `date` such as `2024-01-15` and `type: note`,
      with a body linking a two-word note such as `[[Other Note]]`, is written to
      `_notes/2024-01-15-hello-world.md` with body `[Other Note](other-note/)`.
      Stated for any two-word title and link. */
  lemma {:induction false} TwoWordNoteExample(stem: string, header: string, body: string, env: Env, others: map<string, Value>,
                          day: string, a: string, b: string, c: string, d: string)
    requires IsWord(a) && IsWord(b) && IsWord(c) && IsWord(d)
    requires Find(header + "---", "---") == Some(|header|)
    requires body == "\n\n[[" + c + " " + d + "]]\n"
    requires env.load(header) ==
               Mapping(Frontmatter(Some(Bool(true)), Some(Date(day)), Some(Str(a + " " + b)), Some(Str("note")), others))
    ensures ProcessNote(stem, "---" + header + "---" + body, env).Written?
    ensures ProcessNote(stem, "---" + header + "---" + body, env).collection == Notes
    ensures ProcessNote(stem, "---" + header + "---" + body, env).filename ==
              day + "-" + Lower(a) + "-" + Lower(b) + ".md"
    ensures ProcessNote(stem, "---" + header + "---" + body, env).text ==
              "---\n" + env.dump(env.load(header).fm) + "---\n\n" +
              ("[" + c + " " + d + "](" + Lower(c) + "-" + Lower(d) + "/)")
    ensures ProcessNote(stem, "---" + header + "---" + body, env).copied == []
  {
    var fm := env.load(header).fm;
    var title := a + " " + b;
    NoteWritten(stem, "---" + header + "---" + body, header, body, env, fm, title);
    ExampleParts(fm, env.today, day, a, b);
    TwoWordLinkBody(c, d);
  }

  lemma ExampleParts(fm: Frontmatter, today: string, day: string, a: string, b: string)
    requires IsWord(a) && IsWord(b) && fm.date == Some(Date(day))
    ensures NoteFilename(fm, today, a + " " + b) == day + "-" + Lower(a) + "-" + Lower(b) + ".md"
  {
    SlugifyTwoWords(a, " ", b);
    FilenameRegroup(day, Lower(a), Lower(b));
  }

  // Regrouping of a concatenation, stated over plain variables so that callers
  // do not make the solver search for it on long terms.
  lemma FilenameRegroup(day: string, la: string, lb: string)
    ensures day + "-" + (la + "-" + lb) + ".md" == day + "-" + la + "-" + lb + ".md"
  {
  }
}
