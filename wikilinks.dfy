/** `process_wikilinks(content)` (scripts/obsidian_to_jekyll.py:16-26):
    `re.sub(r'\[\[([^\]]+)\]\]', replace_link, content)`. The substitution scans
    left to right; where a marker starts it is replaced and scanning resumes after
    it, otherwise one character is copied. */
module Wikilinks {
  import opened Wrappers
  import opened Strings
  import opened Slug

  // ----- where a marker starts -----

  /** Index of the first `]` in `u`. */
  function FirstClose(u: string): (r: Option<nat>)
    ensures r.Some? ==> r.value < |u| && u[r.value] == ']' && forall m :: 0 <= m < r.value ==> u[m] != ']'
    ensures r.None? ==> ']' !in u
  {
    if u == [] then None
    else if u[0] == ']' then Some(0)
    else match FirstClose(u[1..])
      case Some(k) => Some(k + 1)
      case None => None
  }

  /** The first `]` of `u` is immediately followed by a second `]`. */
  predicate DoubledClose(u: string)
    decreases |u|
  {
    u != [] && (if u[0] == ']' then |u| > 1 && u[1] == ']' else DoubledClose(u[1..]))
  }

  /** The regex matched at the start of `t`: `[[`, one or more characters other than
      `]` (greedy, so up to the first `]`), then `]]`. The result is the index of the
      first closing bracket; the captured group is `t[2..j]`. */
  function MatchLink(t: string): (r: Option<nat>)
    ensures r.Some? ==> 2 < r.value && r.value + 2 <= |t| && t[r.value] == ']' && t[r.value + 1] == ']'
  {
    if |t| >= 2 && t[0] == '[' && t[1] == '[' then
      match FirstClose(t[2..])
      case Some(k) => if 0 < k && k + 3 < |t| && t[k + 3] == ']' then Some(k + 2) else None
      case None => None
    else None
  }

  /** The span `t[..j + 2]` is a marker in the sense of the regex: it opens with `[[`,
      holds at least one character and no `]` before index `j`, and closes with `]]`. */
  predicate LinkSpan(t: string, j: nat) {
    && 2 < j && j + 1 < |t|
    && t[0] == '[' && t[1] == '[' && t[j] == ']' && t[j + 1] == ']'
    && forall m :: 2 <= m < j ==> t[m] != ']'
  }

  /** `MatchLink` finds a marker exactly when there is one, and the one it finds is
      the only one starting there. */
  lemma MatchLinkSpec(t: string)
    ensures forall j: nat :: LinkSpan(t, j) <==> MatchLink(t) == Some(j)
  {
    if |t| >= 2 && t[0] == '[' && t[1] == '[' {
      var u := t[2..];
      forall j: nat ensures LinkSpan(t, j) <==> MatchLink(t) == Some(j) {
        if LinkSpan(t, j) {
          assert u[j - 2] == ']';
          assert forall m :: 0 <= m < j - 2 ==> u[m] == t[m + 2];
          assert FirstClose(u) == Some(j - 2);
        }
      }
    }
  }

  /** `MatchLink` in terms of `DoubledClose`: a marker starts at `t` exactly when `t`
      opens with `[[`, the next character is not `]`, and the first `]` after the
      opening is doubled. */
  lemma MatchLinkDoubled(t: string)
    ensures MatchLink(t).Some? <==>
              |t| >= 3 && t[0] == '[' && t[1] == '[' && t[2] != ']' && DoubledClose(t[2..])
  {
    if |t| >= 2 {
      DoubledCloseSpec(t[2..]);
    }
  }

  lemma {:induction false} DoubledCloseSpec(u: string)
    ensures DoubledClose(u) <==>
              (FirstClose(u).Some? && FirstClose(u).value + 1 < |u| && u[FirstClose(u).value + 1] == ']')
  {
    if u != [] && u[0] != ']' {
      DoubledCloseSpec(u[1..]);
    }
  }

  /** Text without `]` followed by `](` never has a doubled first `]`. */
  lemma {:induction false} NotDoubledBeforeLinkClose(u: string, w: string)
    requires ']' !in u
    ensures !DoubledClose(u + "](" + w)
  {
    if u != [] {
      assert (u + "](" + w)[1..] == u[1..] + "](" + w;
      NotDoubledBeforeLinkClose(u[1..], w);
    }
  }

  // ----- the replacement -----

  /** `replace_link`: with a `|`, split at the first one into link and text and
      produce `[text.strip()](slugify(link.strip())/)`; otherwise
      `[link_text](slugify(link_text)/)`. */
  function LinkReplacement(x: string): string {
    match Find(x, "|")
    case Some(i) => "[" + Strip(x[i + 1..]) + "](" + Slugify(Strip(x[..i])) + "/)"
    case None => "[" + x + "](" + Slugify(x) + "/)"
  }

  /** `'|' in x` is what decides between the two forms. */
  lemma FindBar(x: string)
    ensures Find(x, "|").Some? <==> '|' in x
  {
    if '|' in x {
      var i :| 0 <= i < |x| && x[i] == '|';
      assert x[i..i + 1] == "|";
      assert OccursAt(x, "|", i);
    }
    if Find(x, "|").Some? {
      var i := Find(x, "|").value;
      assert x[i..i + 1] == "|";
      assert x[i] == '|';
    }
  }

  /** Without a `|`, the captured text is kept verbatim (not stripped) and slugified
      as a whole. */
  lemma ReplacementPlain(x: string)
    requires '|' !in x
    ensures LinkReplacement(x) == "[" + x + "](" + Slugify(x) + "/)"
  {
    FindBar(x);
  }

  /** With a `|`, the split is at the first one: link and text are everything before
      and after it, each stripped; any later `|` stays in the text. */
  lemma ReplacementPiped(l: string, t: string)
    requires '|' !in l
    ensures LinkReplacement(l + "|" + t) == "[" + Strip(t) + "](" + Slugify(Strip(l)) + "/)"
  {
    var x := l + "|" + t;
    assert x[|l|..|l| + 1] == "|";
    assert OccursAt(x, "|", |l|);
    forall k: nat | k < |l| ensures !OccursAt(x, "|", k) {
      assert x[k..k + 1] == [l[k]];
    }
    var i := Find(x, "|").value;
    assert i == |l|;
    assert x[..i] == l;
    assert x[i + 1..] == t;
  }

  /** A slug holds no bracket. */
  lemma SlugHasNoBrackets(t: string)
    ensures '[' !in Slugify(t) && ']' !in Slugify(t)
  {
    SlugifyShape(t);
    var slug := Slugify(t);
    assert forall k :: 0 <= k < |slug| ==> slug[k] != '[' && slug[k] != ']';
  }

  /** Every replacement has the form `[` display `](` tail, where the display holds no
      `]` and the tail holds neither bracket. */
  lemma ReplacementParts(x: string) returns (d: string, tail: string)
    requires ']' !in x
    ensures LinkReplacement(x) == "[" + d + "](" + tail
    ensures ']' !in d && '[' !in tail && ']' !in tail
  {
    var link: string;
    match Find(x, "|") {
      case Some(i) =>
        d := Strip(x[i + 1..]);
        link := Strip(x[..i]);
        StripChars(x[i + 1..]);
        assert forall c :: c in x[i + 1..] ==> c in x;
      case None =>
        d := x;
        link := x;
    }
    assert LinkReplacement(x) == "[" + d + "](" + Slugify(link) + "/)";
    SlugHasNoBrackets(link);
    tail := Slugify(link) + "/)";
    ReplacementRegroup(d, Slugify(link));
  }

  // Regrouping of a concatenation, stated over plain variables so that callers
  // do not make the solver search for it on long terms.
  lemma ReplacementRegroup(d: string, slug: string)
    ensures "[" + d + "](" + slug + "/)" == "[" + d + "](" + (slug + "/)")
  {
  }

  // ----- the substitution -----

  /** `process_wikilinks(s)`. */
  function ProcessWikilinks(s: string): string
    decreases |s|
  {
    if s == [] then []
    else match MatchLink(s)
      case Some(j) => LinkReplacement(s[2..j]) + ProcessWikilinks(s[j + 2..])
      case None => [s[0]] + ProcessWikilinks(s[1..])
  }

  /** Where no marker starts, the first character is copied. */
  lemma ProcessCopies(s: string)
    requires s != [] && MatchLink(s).None?
    ensures ProcessWikilinks(s) == [s[0]] + ProcessWikilinks(s[1..])
  {
  }

  /** Wherever the pattern matches, in the sense of `LinkSpan`, that span is
      replaced and the scan resumes after its `]]`. */
  lemma ProcessReplaces(s: string, j: nat)
    requires LinkSpan(s, j)
    ensures ProcessWikilinks(s) == LinkReplacement(s[2..j]) + ProcessWikilinks(s[j + 2..])
  {
    MatchLinkSpec(s);
  }

  // Regrouping of a concatenation, stated over plain variables so that callers
  // do not make the solver search for it on long terms.
  lemma Recons(u: string, w: string)
    requires u != []
    ensures [u[0]] + (u[1..] + w) == u + w
  {
    assert u == [u[0]] + u[1..];
  }

  /** No marker starts at any position of `u` when it is followed by `v`. */
  predicate NoLinkBefore(u: string, v: string)
    decreases |u|
  {
    u == [] || (MatchLink(u + v).None? && NoLinkBefore(u[1..], v))
  }

  /** `s` holds no marker at all. */
  predicate NoLink(s: string) {
    NoLinkBefore(s, [])
  }

  /** Text in which no marker starts is copied as it is, whatever follows it. */
  lemma {:induction false} ProcessCopiesPlainText(u: string, v: string)
    requires NoLinkBefore(u, v)
    ensures ProcessWikilinks(u + v) == u + ProcessWikilinks(v)
  {
    if u == [] {
      assert u + v == v;
    } else {
      var t := u + v;
      assert t[0] == u[0] && t[1..] == u[1..] + v;
      assert MatchLink(t).None?;
      ProcessCopies(t);
      ProcessCopiesPlainText(u[1..], v);
      Recons(u, ProcessWikilinks(v));
    }
  }

  /** A marker `[[x]]` is replaced by `LinkReplacement(x)` and scanning resumes right
      after its closing brackets. */
  lemma ProcessRewritesLink(x: string, v: string)
    requires x != [] && ']' !in x
    ensures ProcessWikilinks("[[" + x + "]]" + v) == LinkReplacement(x) + ProcessWikilinks(v)
  {
    var t := "[[" + x + "]]" + v;
    var j := |x| + 2;
    assert LinkSpan(t, j) by {
      forall m | 2 <= m < j ensures t[m] != ']' { assert t[m] == x[m - 2]; }
    }
    MatchLinkSpec(t);
    assert t[2..j] == x;
    assert t[j + 2..] == v;
  }

  /** Text without a marker comes back unchanged. */
  lemma ProcessWithoutLinks(s: string)
    requires NoLink(s)
    ensures ProcessWikilinks(s) == s
  {
    ProcessCopiesPlainText(s, []);
    assert s + [] == s;
  }

  /** `[[]]` holds no character between the brackets, so it is left untouched. */
  lemma EmptyBracketsKept(v: string)
    ensures ProcessWikilinks("[[]]" + v) == "[[]]" + ProcessWikilinks(v)
  {
    var t := "[[]]" + v;
    assert t[2..][0] == ']';
    assert t[1..][1] == ']';
    assert NoLinkBefore("]", v);
    assert "]]" + v == (("]" + "]") + v);
    assert ("]]" + v)[1..] == "]" + v;
    assert NoLinkBefore("]]", v);
    assert ("[]]" + v)[1..] == "]]" + v;
    assert NoLinkBefore("[]]", v);
    assert t[1..] == "[]]" + v;
    assert NoLinkBefore("[[]]", v);
    ProcessCopiesPlainText("[[]]", v);
  }

  /** An image marker `![[x]]` is caught by the link pattern: it becomes
      `!` followed by the link replacement, `![x](slugify(x)/)` when `x` has no `|`. */
  lemma ImageMarkerBecomesLink(x: string, v: string)
    requires x != [] && ']' !in x
    ensures ProcessWikilinks("!" + ("[[" + x + "]]" + v)) == "!" + LinkReplacement(x) + ProcessWikilinks(v)
  {
    var rest := "[[" + x + "]]" + v;
    var t := "!" + rest;
    ProcessCopies(t);
    assert t[1..] == rest;
    ProcessRewritesLink(x, v);
    var rep, o := LinkReplacement(x), ProcessWikilinks(v);
    assert "!" + (rep + o) == "!" + rep + o;
  }

  /** In particular `![[x]]` with no `|` in `x` becomes `![x](slugify(x)/)`. */
  lemma ImageMarkerBecomesPlainLink(x: string, v: string)
    requires x != [] && ']' !in x && '|' !in x
    ensures ProcessWikilinks("!" + ("[[" + x + "]]" + v)) == "![" + x + "](" + Slugify(x) + "/)" + ProcessWikilinks(v)
  {
    ImageMarkerBecomesLink(x, v);
    ReplacementPlain(x);
    BangRegroup(x, Slugify(x), ProcessWikilinks(v));
  }

  // Regrouping of a concatenation, stated over plain variables so that callers
  // do not make the solver search for it on long terms.
  lemma BangRegroup(x: string, slug: string, o: string)
    ensures "!" + ("[" + x + "](" + slug + "/)") + o == "![" + x + "](" + slug + "/)" + o
  {
  }

  // ----- the result holds no marker -----

  /** A string starts with `]` after the substitution only if it did before. */
  lemma ProcessStartsWithClose(s: string)
    requires |ProcessWikilinks(s)| > 0 && ProcessWikilinks(s)[0] == ']'
    ensures |s| > 0 && s[0] == ']'
  {
    if s != [] && MatchLink(s).Some? {
      MatchLinkSpec(s);
      var j := MatchLink(s).value;
      assert ProcessWikilinks(s)[0] == LinkReplacement(s[2..j])[0];
    }
  }

  /** A doubled first `]` in the result was already a doubled first `]` in the input:
      a replacement's only `]` is followed by `(`. */
  lemma {:induction false} DoubledCloseCopied(s: string)
    requires DoubledClose(ProcessWikilinks(s))
    ensures DoubledClose(s)
    decreases |s|
  {
    match MatchLink(s) {
      case Some(j) =>
        ReplacedNotDoubled(s, j);
      case None =>
        ProcessCopies(s);
        var r1 := ProcessWikilinks(s[1..]);
        if s[0] == ']' {
          assert r1[0] == ']';
          ProcessStartsWithClose(s[1..]);
        } else {
          DoubledCloseTail([s[0]], r1);
          DoubledCloseCopied(s[1..]);
        }
    }
  }

  /** Where a marker starts, the result has no doubled first `]`. */
  lemma ReplacedNotDoubled(s: string, j: nat)
    requires MatchLink(s) == Some(j)
    ensures !DoubledClose(ProcessWikilinks(s))
  {
    MatchLinkSpec(s);
    ProcessReplaces(s, j);
    var d, tail := ReplacementParts(s[2..j]);
    var rest := ProcessWikilinks(s[j + 2..]);
    ClosingRegroup(d, tail, rest);
    NotDoubledBeforeLinkClose("[" + d, tail + rest);
  }

  // Regrouping of a concatenation, stated over plain variables so that callers
  // do not make the solver search for it on long terms.
  lemma ClosingRegroup(d: string, tail: string, rest: string)
    ensures "[" + d + "](" + tail + rest == ("[" + d) + "](" + (tail + rest)
  {
  }

  /** Past a first character other than `]`, the doubled first `]` is the rest's. */
  lemma DoubledCloseTail(c: string, u: string)
    requires |c| == 1 && c[0] != ']'
    ensures DoubledClose(c + u) == DoubledClose(u)
  {
    assert (c + u)[1..] == u;
  }

  /** No marker can start at a `[` copied from the input, given that none started there. */
  lemma CopiedOpenStartsNoLink(s: string)
    requires |s| > 0 && s[0] == '[' && MatchLink(s).None?
    ensures MatchLink("[" + ProcessWikilinks(s[1..])).None?
  {
    var s1 := s[1..];
    var r := ProcessWikilinks(s1);
    var t := "[" + r;
    MatchLinkDoubled(s);
    MatchLinkDoubled(t);
    if |r| >= 2 {
      assert t[1] == r[0] && t[2] == r[1] && t[2..] == r[1..];
      match MatchLink(s1) {
        case Some(_) =>
          // `s` would then be `[` followed by a marker, itself a marker.
        case None =>
          var s2 := s1[1..];
          ProcessCopies(s1);
          assert r[1..] == ProcessWikilinks(s2);
          if DoubledClose(r[1..]) {
            DoubledCloseCopied(s2);
          }
          if |s2| > 0 && s2[0] == ']' {
            ProcessCopies(s2);
          }
          assert s[2..] == s2;
      }
    }
  }

  /** Text that does not hold `[` starts no marker. */
  lemma {:induction false} NoLinkWithoutOpen(u: string, v: string)
    requires '[' !in u
    ensures NoLinkBefore(u, v)
  {
    if u != [] {
      NoLinkWithoutOpen(u[1..], v);
    }
  }

  /** Positions before the `](` of a replacement start no marker, since the first `]`
      after them is followed by `(`. */
  lemma {:induction false} NoLinkBeforeLinkClose(u: string, w: string, v: string)
    requires ']' !in u && '[' !in w
    ensures NoLinkBefore(u + "](" + w, v)
  {
    var t := u + "](" + w;
    if u == [] {
      assert t == "](" + w;
      NoLinkWithoutOpen("](" + w, v);
    } else {
      assert t[1..] == u[1..] + "](" + w;
      NoLinkBeforeLinkClose(u[1..], w, v);
      MatchLinkDoubled(t + v);
      if |u| >= 2 {
        assert (t + v)[2..] == u[2..] + "](" + (w + v);
        NotDoubledBeforeLinkClose(u[2..], w + v);
      } else {
        assert (t + v)[1] == ']';
      }
    }
  }

  lemma {:induction false} NoLinkJoin(u: string, v: string)
    requires NoLinkBefore(u, v) && NoLink(v)
    ensures NoLink(u + v)
  {
    if u == [] {
      assert u + v == v;
    } else {
      assert (u + v) + [] == u + v;
      assert (u + v)[1..] == u[1..] + v;
      NoLinkJoin(u[1..], v);
    }
  }

  /** The result of the substitution holds no marker. */
  lemma {:induction false} ProcessLeavesNoLink(s: string)
    ensures NoLink(ProcessWikilinks(s))
    decreases |s|
  {
    if s != [] {
      match MatchLink(s) {
        case Some(j) =>
          MatchLinkSpec(s);
          var o := ProcessWikilinks(s[j + 2..]);
          ProcessLeavesNoLink(s[j + 2..]);
          var d, tail := ReplacementParts(s[2..j]);
          var rep := LinkReplacement(s[2..j]);
          assert rep == ("[" + d) + "](" + tail;
          NoLinkBeforeLinkClose("[" + d, tail, o);
          NoLinkJoin(rep, o);
        case None =>
          var o := ProcessWikilinks(s[1..]);
          ProcessLeavesNoLink(s[1..]);
          assert ProcessWikilinks(s) == [s[0]] + o;
          if s[0] == '[' {
            CopiedOpenStartsNoLink(s);
          }
          assert [s[0]] + o + [] == [s[0]] + o;
          assert ([s[0]] + o)[1..] == o;
          assert NoLinkBefore([s[0]], o);
          NoLinkJoin([s[0]], o);
      }
    }
  }

  /** Applying the substitution twice is the same as applying it once. */
  lemma ProcessIdempotent(s: string)
    ensures ProcessWikilinks(ProcessWikilinks(s)) == ProcessWikilinks(s)
  {
    ProcessLeavesNoLink(s);
    ProcessWithoutLinks(ProcessWikilinks(s));
  }
}
