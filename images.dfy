/** `process_images(content, source_dir, target_dir)` (scripts/obsidian_to_jekyll.py:28-43):
    `re.sub(r'!\[\[([^\]]+)\]\]', replace_image, content)`. The file system is the
    set `existing` of image names found under the vault's `assets/images`; the copies
    the callback makes are returned, in order, as `copied`. */
module Images {
  import opened Wrappers
  import opened Wikilinks

  /** The rewritten text and the names of the images copied along the way. */
  datatype Rewritten = Rewritten(text: string, copied: seq<string>)

  /** The image pattern matched at the start of `t`: `!` followed by a link marker.
      The result is the index of the first closing bracket; the name is `t[3..c]`. */
  function MatchImage(t: string): (r: Option<nat>)
    ensures r.Some? ==> 3 < r.value && r.value + 2 <= |t| && t[0] == '!' && t[r.value] == ']' && t[r.value + 1] == ']'
  {
    if |t| >= 1 && t[0] == '!' then
      match MatchLink(t[1..])
      case Some(j) => Some(j + 1)
      case None => None
    else None
  }

  /** The Markdown image that replaces a marker whose file exists. */
  function ImageLink(name: string): string {
    "![" + name + "](/assets/images/" + name + ")"
  }

  /** `process_images` on the text `s`. */
  function ProcessImages(s: string, existing: set<string>): Rewritten
    decreases |s|
  {
    if s == [] then Rewritten([], [])
    else match MatchImage(s)
      case Some(c) =>
        var name := s[3..c];
        var rest := ProcessImages(s[c + 2..], existing);
        if name in existing then Rewritten(ImageLink(name) + rest.text, [name] + rest.copied)
        else Rewritten(s[..c + 2] + rest.text, rest.copied)
      case None =>
        var rest := ProcessImages(s[1..], existing);
        Rewritten([s[0]] + rest.text, rest.copied)
  }

  /** The names of all image markers of `s`, in the order the scan meets them. */
  function ImageNames(s: string): seq<string>
    decreases |s|
  {
    if s == [] then []
    else match MatchImage(s)
      case Some(c) => [s[3..c]] + ImageNames(s[c + 2..])
      case None => ImageNames(s[1..])
  }

  /** The names of `names` that are in `existing`, in order. */
  function Existing(names: seq<string>, existing: set<string>): seq<string> {
    if names == [] then []
    else (if names[0] in existing then [names[0]] else []) + Existing(names[1..], existing)
  }

  lemma {:induction false} ExistingMembers(names: seq<string>, existing: set<string>)
    ensures forall n :: n in Existing(names, existing) <==> n in names && n in existing
  {
    if names != [] {
      ExistingMembers(names[1..], existing);
      assert forall n :: n in names <==> n == names[0] || n in names[1..];
    }
  }

  /** A marker `![[name]]` is located by `MatchImage` with the name as its group. */
  lemma MatchImageMarker(name: string, v: string)
    requires name != [] && ']' !in name
    ensures MatchImage("!" + ("[[" + name + "]]" + v)) == Some(|name| + 3)
    ensures ("!" + ("[[" + name + "]]" + v))[3..|name| + 3] == name
    ensures ("!" + ("[[" + name + "]]" + v))[..|name| + 5] == "![[" + name + "]]"
    ensures ("!" + ("[[" + name + "]]" + v))[|name| + 5..] == v
  {
    var rest := "[[" + name + "]]" + v;
    var t := "!" + rest;
    var j := |name| + 2;
    assert LinkSpan(rest, j) by {
      forall m | 2 <= m < j ensures rest[m] != ']' { assert rest[m] == name[m - 2]; }
    }
    MatchLinkSpec(rest);
    assert t[1..] == rest;
  }

  /** A marker whose image exists becomes a Markdown image under `/assets/images/`
      and its name is copied, before anything copied further on. */
  lemma ImageRewritten(name: string, v: string, existing: set<string>)
    requires name != [] && ']' !in name && name in existing
    ensures ProcessImages("!" + ("[[" + name + "]]" + v), existing) ==
              Rewritten(ImageLink(name) + ProcessImages(v, existing).text,
                     [name] + ProcessImages(v, existing).copied)
  {
    MatchImageMarker(name, v);
  }

  /** A marker whose image does not exist is left verbatim and nothing is copied for it. */
  lemma ImageKept(name: string, v: string, existing: set<string>)
    requires name != [] && ']' !in name && name !in existing
    ensures ProcessImages("!" + ("[[" + name + "]]" + v), existing) ==
              Rewritten("![[" + name + "]]" + ProcessImages(v, existing).text,
                     ProcessImages(v, existing).copied)
  {
    MatchImageMarker(name, v);
  }

  /** What is copied is exactly the markers' names whose images exist, in order. */
  lemma {:induction false} CopiedAreExisting(s: string, existing: set<string>)
    ensures ProcessImages(s, existing).copied == Existing(ImageNames(s), existing)
    decreases |s|
  {
    if s != [] {
      match MatchImage(s) {
        case Some(c) => CopiedAreExisting(s[c + 2..], existing);
        case None => CopiedAreExisting(s[1..], existing);
      }
    }
  }

  /** A name is copied if and only if it names a marker and its image exists. */
  lemma CopiedIff(s: string, existing: set<string>)
    ensures forall n :: n in ProcessImages(s, existing).copied <==> n in ImageNames(s) && n in existing
  {
    CopiedAreExisting(s, existing);
    ExistingMembers(ImageNames(s), existing);
  }

  /** When no image exists, the text comes back unchanged and nothing is copied. */
  lemma {:induction false} NothingExists(s: string)
    ensures ProcessImages(s, {}) == Rewritten(s, [])
    decreases |s|
  {
    if s != [] {
      match MatchImage(s) {
        case Some(c) =>
          NothingExists(s[c + 2..]);
          assert s[..c + 2] + s[c + 2..] == s;
        case None =>
          NothingExists(s[1..]);
          assert [s[0]] + s[1..] == s;
      }
    }
  }

  /** Text without image markers comes back unchanged and nothing is copied. */
  lemma {:induction false} NoMarkerUnchanged(s: string, existing: set<string>)
    requires ImageNames(s) == []
    ensures ProcessImages(s, existing) == Rewritten(s, [])
    decreases |s|
  {
    if s != [] {
      match MatchImage(s) {
        case Some(c) =>
        case None =>
          NoMarkerUnchanged(s[1..], existing);
          assert [s[0]] + s[1..] == s;
      }
    }
  }

  /** Text without link markers holds no image marker either. */
  lemma {:induction false} NoLinkNoImage(s: string)
    requires NoLink(s)
    ensures ImageNames(s) == []
    decreases |s|
  {
    if s != [] {
      assert s + [] == s;
      assert s[1..] + [] == s[1..];
      NoLinkNoImage(s[1..]);
    }
  }

  /** Run after `process_wikilinks`, as the converter does, `process_images` finds
      no marker left: it changes nothing and copies nothing. */
  lemma ImagesAfterWikilinks(s: string, existing: set<string>)
    ensures ProcessImages(ProcessWikilinks(s), existing) == Rewritten(ProcessWikilinks(s), [])
  {
    ProcessLeavesNoLink(s);
    NoLinkNoImage(ProcessWikilinks(s));
    NoMarkerUnchanged(ProcessWikilinks(s), existing);
  }
}
