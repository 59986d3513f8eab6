/** `slugify(text)` (scripts/obsidian_to_jekyll.py:10-14): normalise, drop every
    character outside `[\w\s-]`, strip, lowercase, then turn each run of `[-\s]`
    into a single `-`. The steps are plain functions; what they guarantee is
    stated by the lemmas below them. */
module Slug {
  import opened Strings

  /** Non-ASCII characters that are neither letters nor digits and so not in `\w`:
      C1 controls, the soft hyphen, the combining diacritical marks, the zero-width
      and direction marks, and the byte order mark. */
  predicate IsNonWordMark(c: char) {
    || ('\U{80}' <= c <= '\U{9F}') || c == '\U{AD}' || ('\U{300}' <= c <= '\U{36F}')
    || ('\U{200B}' <= c <= '\U{200F}') || c == '\U{FEFF}'
  }

  /** `\w` in a `str` pattern. ASCII letters, digits and `_` exactly; a non-ASCII
      character is taken to be a word character unless it is whitespace or one of
      the marks above. */
  predicate IsWordChar(c: char) {
    || ('a' <= c <= 'z') || ('A' <= c <= 'Z') || ('0' <= c <= '9') || c == '_'
    || (c > '\U{7F}' && !IsSpace(c) && !IsNonWordMark(c))
  }

  /** The class `[-\s]` whose runs the last step collapses. */
  predicate IsSeparator(c: char) {
    c == '-' || IsSpace(c)
  }

  /** The class `[\w\s-]` that survives the first substitution. */
  predicate IsSlugChar(c: char) {
    IsWordChar(c) || IsSeparator(c)
  }

  predicate IsUpper(c: char) {
    'A' <= c <= 'Z'
  }

  /** No two consecutive hyphens. */
  predicate NoDoubleHyphen(s: string) {
    forall i :: 0 <= i < |s| - 1 ==> !(s[i] == '-' && s[i + 1] == '-')
  }

  /** What a slug is made of: word characters and hyphens, no upper case,
      and never two hyphens in a row. */
  predicate IsSlug(s: string) {
    && (forall i :: 0 <= i < |s| ==> (IsWordChar(s[i]) || s[i] == '-') && !IsUpper(s[i]))
    && NoDoubleHyphen(s)
  }

  /** `re.sub(r'[^\w\s-]', '', s)`. */
  function DropPunctuation(s: string): string {
    if s == [] then [] else (if IsSlugChar(s[0]) then [s[0]] else []) + DropPunctuation(s[1..])
  }

  /** A mark outside `\w` that is not whitespace (U+0085 is), such as the combining
      acute accent U+0301, is dropped by the first substitution wherever it stands,
      so `slugify` ignores it: `cafe` followed by U+0301 gives `cafe`. */
  lemma DropPunctuationDropsMark(s: string, c: char)
    requires IsNonWordMark(c) && !IsSpace(c)
    ensures DropPunctuation(s + [c]) == DropPunctuation(s)
    ensures DropPunctuation([c] + s) == DropPunctuation(s)
    ensures Slugify(s + [c]) == Slugify(s)
  {
    DropPunctuationConcat(s, [c]);
    DropPunctuationConcat([c], s);
    assert [c][1..] == [];
  }

  /** Word characters are not separators. */
  lemma WordCharNotSeparator(c: char)
    requires IsWordChar(c)
    ensures !IsSeparator(c)
  {
  }

  /** `str.lower()` on one character: ASCII upper case to lower case. */
  function LowerChar(c: char): (d: char)
    ensures !IsUpper(d)
    ensures IsWordChar(d) == IsWordChar(c) && IsSpace(d) == IsSpace(c) && (d == '-') == (c == '-')
    ensures !IsUpper(c) ==> d == c
  {
    if IsUpper(c) then (c as int - 'A' as int + 'a' as int) as char else c
  }

  /** `str.lower()`. */
  function Lower(s: string): string {
    if s == [] then [] else [LowerChar(s[0])] + Lower(s[1..])
  }

  /** `s` with its leading `[-\s]` run removed. */
  function DropSeparators(s: string): (r: string)
    ensures |r| <= |s|
  {
    if s != [] && IsSeparator(s[0]) then DropSeparators(s[1..]) else s
  }

  /** `re.sub(r'[-\s]+', '-', s)`: each maximal run of separators becomes one `-`. */
  function Collapse(s: string): string
    decreases |s|
  {
    if s == [] then []
    else if IsSeparator(s[0]) then "-" + Collapse(DropSeparators(s[1..]))
    else [s[0]] + Collapse(s[1..])
  }

  /** `slugify(text)`. */
  function Slugify(text: string): string {
    Collapse(Lower(Strip(DropPunctuation(text))))
  }

  // ----- the first substitution -----

  /** Only characters of `[\w\s-]` are kept, and a kept first or last character
      stays first or last. */
  lemma {:induction false} DropPunctuationShape(s: string)
    ensures forall i :: 0 <= i < |DropPunctuation(s)| ==> IsSlugChar(DropPunctuation(s)[i])
    ensures |s| > 0 && IsSlugChar(s[0]) ==> |DropPunctuation(s)| > 0 && DropPunctuation(s)[0] == s[0]
    ensures |s| > 0 && IsSlugChar(s[|s| - 1]) ==>
              |DropPunctuation(s)| > 0 && DropPunctuation(s)[|DropPunctuation(s)| - 1] == s[|s| - 1]
  {
    if s != [] {
      DropPunctuationShape(s[1..]);
      if |s| > 1 { assert s[1..][|s| - 2] == s[|s| - 1]; }
    }
  }

  /** Text made only of `[\w\s-]` passes the first substitution unchanged. */
  lemma {:induction false} DropPunctuationUnchanged(s: string)
    requires forall i :: 0 <= i < |s| ==> IsSlugChar(s[i])
    ensures DropPunctuation(s) == s
  {
    if s != [] { DropPunctuationUnchanged(s[1..]); }
  }

  lemma {:induction false} DropPunctuationConcat(u: string, v: string)
    ensures DropPunctuation(u + v) == DropPunctuation(u) + DropPunctuation(v)
  {
    if u == [] {
      assert u + v == v;
    } else {
      var w := u + v;
      assert w[0] == u[0] && w[1..] == u[1..] + v;
      DropPunctuationConcat(u[1..], v);
      var head := if IsSlugChar(u[0]) then [u[0]] else [];
      assert DropPunctuation(w) == head + (DropPunctuation(u[1..]) + DropPunctuation(v));
      assert DropPunctuation(u) == head + DropPunctuation(u[1..]);
      ConcatAssoc(head, DropPunctuation(u[1..]), DropPunctuation(v));
    }
  }

  // Regrouping of a concatenation, stated over plain variables so that callers
  // do not make the solver search for it on long terms.
  lemma ConcatAssoc(a: string, b: string, c: string)
    ensures a + (b + c) == (a + b) + c
  {
  }

  // ----- lower-casing -----

  lemma {:induction false} LowerAt(s: string)
    ensures |Lower(s)| == |s| && forall i :: 0 <= i < |s| ==> Lower(s)[i] == LowerChar(s[i])
  {
    if s != [] { LowerAt(s[1..]); }
  }

  lemma LowerUnchanged(s: string)
    requires forall i :: 0 <= i < |s| ==> !IsUpper(s[i])
    ensures Lower(s) == s
  {
    LowerAt(s);
  }

  // ----- collapsing separator runs -----

  lemma {:induction false} DropSeparatorsSlice(s: string)
    ensures |DropSeparators(s)| <= |s| && DropSeparators(s) == s[|s| - |DropSeparators(s)|..]
    ensures DropSeparators(s) == [] || !IsSeparator(DropSeparators(s)[0])
    ensures forall i :: 0 <= i < |s| - |DropSeparators(s)| ==> IsSeparator(s[i])
  {
    if s != [] && IsSeparator(s[0]) { DropSeparatorsSlice(s[1..]); }
  }

  /** A run of separators is dropped up to the first non-separator. */
  lemma {:induction false} DropSeparatorsRun(r: string, v: string)
    requires forall i :: 0 <= i < |r| ==> IsSeparator(r[i])
    requires v == [] || !IsSeparator(v[0])
    ensures DropSeparators(r + v) == v
  {
    if r == [] {
      assert r + v == v;
    } else {
      assert (r + v)[1..] == r[1..] + v;
      DropSeparatorsRun(r[1..], v);
    }
  }

  lemma {:induction false} DropSeparatorsConcat(u: string, v: string)
    requires u != [] && !IsSeparator(u[|u| - 1])
    ensures DropSeparators(u + v) == DropSeparators(u) + v
    decreases |u|
  {
    if IsSeparator(u[0]) {
      assert (u + v)[1..] == u[1..] + v;
      DropSeparatorsConcat(u[1..], v);
    }
  }

  /** Every character of `Collapse(s)` is `-` or a non-separator character of `s`. */
  lemma {:induction false} CollapseChars(s: string)
    ensures forall c :: c in Collapse(s) ==> c == '-' || (c in s && !IsSeparator(c))
    decreases |s|
  {
    if s == [] {
    } else if IsSeparator(s[0]) {
      var t := DropSeparators(s);
      DropSeparatorsSlice(s);
      CollapseChars(t);
      assert forall c :: c in t ==> c in s;
    } else {
      CollapseChars(s[1..]);
      assert forall c :: c in s[1..] ==> c in s;
    }
  }

  /** `Collapse(s)` is empty exactly when `s` is, and starts and ends with `-` exactly
      when `s` starts and ends with a separator. */
  lemma {:induction false} CollapseEnds(s: string)
    ensures |Collapse(s)| == 0 <==> |s| == 0
    ensures |Collapse(s)| > 0 ==> (Collapse(s)[0] == '-' <==> IsSeparator(s[0]))
    ensures |Collapse(s)| > 0 ==> (Collapse(s)[|Collapse(s)| - 1] == '-' <==> IsSeparator(s[|s| - 1]))
    decreases |s|
  {
    if s == [] {
    } else if IsSeparator(s[0]) {
      var t := DropSeparators(s);
      DropSeparatorsSlice(s);
      CollapseEnds(t);
      assert t != [] ==> t[|t| - 1] == s[|s| - 1];
      assert t == [] ==> IsSeparator(s[|s| - 1]);
    } else {
      CollapseEnds(s[1..]);
    }
  }

  /** `Collapse(s)` never holds two hyphens in a row. */
  lemma {:induction false} CollapseNoDoubleHyphen(s: string)
    ensures NoDoubleHyphen(Collapse(s))
    decreases |s|
  {
    if s == [] {
    } else if IsSeparator(s[0]) {
      var t := DropSeparators(s);
      DropSeparatorsSlice(s);
      CollapseNoDoubleHyphen(t);
      CollapseEnds(t);
    } else {
      CollapseNoDoubleHyphen(s[1..]);
    }
  }

  /** A run of separators ends where a word character stands, so the collapse of
      `u + v` is that of `u` followed by that of `v` when `u` ends in a non-separator. */
  lemma {:induction false} CollapseConcat(u: string, v: string)
    requires u != [] && !IsSeparator(u[|u| - 1])
    ensures Collapse(u + v) == Collapse(u) + Collapse(v)
    decreases |u|
  {
    var w := u + v;
    assert w[0] == u[0] && w[1..] == u[1..] + v;
    if IsSeparator(u[0]) {
      DropSeparatorsSlice(u);
      DropSeparatorsConcat(u, v);
      var t := DropSeparators(u);
      assert t != [] && t[|t| - 1] == u[|u| - 1];
      CollapseConcat(t, v);
      assert Collapse(w) == "-" + (Collapse(t) + Collapse(v));
      ConcatAssoc("-", Collapse(t), Collapse(v));
    } else if |u| > 1 {
      CollapseConcat(u[1..], v);
      assert Collapse(w) == [u[0]] + (Collapse(u[1..]) + Collapse(v));
      ConcatAssoc([u[0]], Collapse(u[1..]), Collapse(v));
    } else {
      assert u[1..] == [];
    }
  }

  /** Text without whitespace and without `--` is already collapsed. */
  lemma {:induction false} CollapseUnchanged(s: string)
    requires forall i :: 0 <= i < |s| ==> !IsSpace(s[i])
    requires NoDoubleHyphen(s)
    ensures Collapse(s) == s
  {
    if s != [] {
      assert NoDoubleHyphen(s[1..]);
      CollapseUnchanged(s[1..]);
      if IsSeparator(s[0]) {
        assert DropSeparators(s) == s[1..];
      }
    }
  }

  // ----- slugify -----

  /** Every slug is made of word characters and hyphens only (so it holds no
      whitespace and no punctuation), has no upper case, and never two hyphens in a row. */
  lemma SlugifyShape(text: string)
    ensures IsSlug(Slugify(text))
  {
    var kept := DropPunctuation(text);
    DropPunctuationShape(text);
    var stripped := Strip(kept);
    StripChars(kept);
    var lowered := Lower(stripped);
    LowerAt(stripped);
    assert forall c :: c in stripped ==> IsSlugChar(c) by {
      forall c | c in stripped ensures IsSlugChar(c) {
        var i :| 0 <= i < |kept| && kept[i] == c;
      }
    }
    assert forall c :: c in lowered ==> IsSlugChar(c) && !IsUpper(c) by {
      forall c | c in lowered ensures IsSlugChar(c) && !IsUpper(c) {
        var i :| 0 <= i < |lowered| && lowered[i] == c;
        assert stripped[i] in stripped;
      }
    }
    var r := Collapse(lowered);
    CollapseChars(lowered);
    CollapseNoDoubleHyphen(lowered);
    forall i | 0 <= i < |r| ensures (IsWordChar(r[i]) || r[i] == '-') && !IsUpper(r[i]) {
      assert r[i] in r;
    }
  }

  /** Slugs are fixed points: slugifying a slug gives it back. */
  lemma SlugifyIdempotent(text: string)
    ensures Slugify(Slugify(text)) == Slugify(text)
  {
    var s := Slugify(text);
    SlugifyShape(text);
    SlugHasNoSpace(s);
    DropPunctuationUnchanged(s);
    assert [] + s + [] == s;
    StripPadded([], s, []);
    LowerUnchanged(s);
    CollapseUnchanged(s);
  }

  /** Slugs hold no whitespace. */
  lemma SlugHasNoSpace(s: string)
    requires IsSlug(s)
    ensures forall i :: 0 <= i < |s| ==> !IsSpace(s[i])
  {
    forall i | 0 <= i < |s| ensures !IsSpace(s[i]) {
      if IsWordChar(s[i]) {
        WordCharNotSeparator(s[i]);
      }
    }
  }

  /** The word characters of `s`, in order: what the hyphens of a slug sit between. */
  function WordChars(s: string): string {
    if s == [] then [] else (if IsWordChar(s[0]) then [s[0]] else []) + WordChars(s[1..])
  }

  lemma {:induction false} WordCharsConcat(u: string, v: string)
    ensures WordChars(u + v) == WordChars(u) + WordChars(v)
  {
    if u == [] {
      assert u + v == v;
    } else {
      var w := u + v;
      assert w[0] == u[0] && w[1..] == u[1..] + v;
      WordCharsConcat(u[1..], v);
      var head := if IsWordChar(u[0]) then [u[0]] else [];
      assert WordChars(w) == head + (WordChars(u[1..]) + WordChars(v));
      assert WordChars(u) == head + WordChars(u[1..]);
      ConcatAssoc(head, WordChars(u[1..]), WordChars(v));
    }
  }

  lemma {:induction false} WordCharsOfSeparators(s: string)
    requires forall i :: 0 <= i < |s| ==> IsSeparator(s[i])
    ensures WordChars(s) == []
  {
    if s != [] { WordCharsOfSeparators(s[1..]); }
  }

  lemma {:induction false} DropPunctuationKeepsWords(s: string)
    ensures WordChars(DropPunctuation(s)) == WordChars(s)
  {
    if s != [] {
      DropPunctuationKeepsWords(s[1..]);
      var head := if IsSlugChar(s[0]) then [s[0]] else [];
      assert DropPunctuation(s) == head + DropPunctuation(s[1..]);
      WordCharsConcat(head, DropPunctuation(s[1..]));
      if IsWordChar(s[0]) {
        assert WordChars(head) == [s[0]];
      } else {
        assert WordChars(head) == [];
      }
    }
  }

  lemma StripKeepsWords(s: string)
    ensures WordChars(Strip(s)) == WordChars(s)
  {
    var a := StripSlice(s);
    var r := Strip(s);
    assert s == s[..a] + r + s[a + |r|..];
    WordCharsConcat(s[..a] + r, s[a + |r|..]);
    WordCharsConcat(s[..a], r);
    assert AllSpace(s[..a]) && AllSpace(s[a + |r|..]);
    WordCharsOfSeparators(s[..a]);
    WordCharsOfSeparators(s[a + |r|..]);
  }

  lemma {:induction false} LowerKeepsWords(s: string)
    ensures WordChars(Lower(s)) == Lower(WordChars(s))
  {
    if s != [] {
      LowerKeepsWords(s[1..]);
      assert Lower(s) == [LowerChar(s[0])] + Lower(s[1..]);
      WordCharsConcat([LowerChar(s[0])], Lower(s[1..]));
      if IsWordChar(s[0]) {
        assert WordChars(s) == [s[0]] + WordChars(s[1..]);
        assert WordChars([LowerChar(s[0])]) == [LowerChar(s[0])];
        assert Lower([s[0]] + WordChars(s[1..])) == [LowerChar(s[0])] + Lower(WordChars(s[1..]));
      } else {
        assert WordChars(s) == WordChars(s[1..]);
        assert WordChars([LowerChar(s[0])]) == [];
      }
    }
  }

  lemma {:induction false} CollapseKeepsWords(s: string)
    ensures WordChars(Collapse(s)) == WordChars(s)
    decreases |s|
  {
    if s != [] {
      if IsSeparator(s[0]) {
        var t := DropSeparators(s);
        DropSeparatorsSlice(s);
        CollapseKeepsWords(t);
        assert s == s[..|s| - |t|] + t;
        WordCharsConcat(s[..|s| - |t|], t);
        WordCharsOfSeparators(s[..|s| - |t|]);
        WordCharsConcat("-", Collapse(t));
      } else {
        CollapseKeepsWords(s[1..]);
        WordCharsConcat([s[0]], Collapse(s[1..]));
      }
    }
  }

  /** No word character is lost or invented: the word characters of the slug are
      those of the input, lower-cased, in the same order. */
  lemma SlugifyKeepsWords(text: string)
    ensures WordChars(Slugify(text)) == Lower(WordChars(text))
  {
    var kept := DropPunctuation(text);
    var stripped := Strip(kept);
    var lowered := Lower(stripped);
    DropPunctuationKeepsWords(text);
    StripKeepsWords(kept);
    LowerKeepsWords(stripped);
    CollapseKeepsWords(lowered);
  }

  /** `strip()` removes only whitespace, so a hyphen that starts the input also
      starts the slug. */
  lemma SlugifyKeepsLeadingHyphen(text: string)
    requires |text| > 0 && text[0] == '-'
    ensures |Slugify(text)| > 0 && Slugify(text)[0] == '-'
  {
    var kept := DropPunctuation(text);
    DropPunctuationShape(text);
    assert kept[0] == '-' && !IsSpace('-');
    StripKeepsEnds(kept);
    var stripped := Strip(kept);
    var lowered := Lower(stripped);
    LowerAt(stripped);
    assert lowered[0] == '-';
    CollapseEnds(lowered);
  }

  /** Likewise a hyphen that ends the input ends the slug. */
  lemma SlugifyKeepsTrailingHyphen(text: string)
    requires |text| > 0 && text[|text| - 1] == '-'
    ensures |Slugify(text)| > 0 && Slugify(text)[|Slugify(text)| - 1] == '-'
  {
    var kept := DropPunctuation(text);
    DropPunctuationShape(text);
    assert kept[|kept| - 1] == '-' && !IsSpace('-');
    StripKeepsEnds(kept);
    var stripped := Strip(kept);
    var lowered := Lower(stripped);
    LowerAt(stripped);
    assert lowered[|lowered| - 1] == '-';
    CollapseEnds(lowered);
  }

  /** A non-empty run of word characters: what the examples below put between
      punctuation and whitespace. */
  predicate IsWord(w: string) {
    |w| > 0 && forall i :: 0 <= i < |w| ==> IsWordChar(w[i])
  }

  lemma {:induction false} LowerConcat(u: string, v: string)
    ensures Lower(u + v) == Lower(u) + Lower(v)
  {
    if u == [] {
      assert u + v == v;
    } else {
      var w := u + v;
      assert w[0] == u[0] && w[1..] == u[1..] + v;
      LowerConcat(u[1..], v);
      var head := [LowerChar(u[0])];
      assert Lower(w) == head + (Lower(u[1..]) + Lower(v));
      assert Lower(u) == head + Lower(u[1..]);
      ConcatAssoc(head, Lower(u[1..]), Lower(v));
    }
  }

  /** A word stays a word once lower-cased, and is already collapsed. */
  lemma LowerWord(w: string)
    requires IsWord(w)
    ensures IsWord(Lower(w)) && Collapse(Lower(w)) == Lower(w)
  {
    LowerAt(w);
    var l := Lower(w);
    WordHasNoSeparator(l);
    CollapseUnchanged(l);
  }

  /** The first substitution and `strip()` leave two words and a whitespace run
      between them as they are. */
  lemma KeptAndStripped(a: string, m: string, b: string)
    requires IsWord(a) && IsWord(b) && AllSpace(m)
    ensures DropPunctuation(a + m + b) == a + m + b
    ensures Strip(a + m + b) == a + m + b
  {
    var t := a + m + b;
    DropPunctuationConcat(a + m, b);
    DropPunctuationConcat(a, m);
    DropPunctuationUnchanged(a);
    DropPunctuationUnchanged(m);
    DropPunctuationUnchanged(b);
    assert t[0] == a[0] && t[|t| - 1] == b[|b| - 1];
    StripPadded([], t, []);
    assert [] + t + [] == t;
  }

  /** Lower-casing and collapsing two words around a non-empty whitespace run
      joins the lower-cased words with one hyphen. */
  lemma LoweredAndCollapsed(a: string, m: string, b: string)
    requires IsWord(a) && IsWord(b) && AllSpace(m) && |m| > 0
    ensures Collapse(Lower(a + m + b)) == Lower(a) + "-" + Lower(b)
  {
    LowerConcat(a + m, b);
    LowerConcat(a, m);
    LowerWord(a);
    LowerWord(b);
    var lm := Lower(m);
    LowerAt(m);
    assert forall i :: 0 <= i < |lm| ==> IsSeparator(lm[i]);
    CollapseWords(Lower(a), lm, Lower(b));
  }

  lemma CollapseWords(u: string, r: string, w: string)
    requires IsWord(u) && IsWord(w)
    requires |r| > 0 && forall i :: 0 <= i < |r| ==> IsSeparator(r[i])
    ensures Collapse(u + r + w) == u + "-" + w
  {
    WordHasNoSeparator(u);
    CollapseUnchanged(u);
    assert u + r + w == u + (r + w);
    CollapseConcat(u, r + w);
    CollapseRun(r, w);
  }

  lemma CollapseRun(r: string, w: string)
    requires |r| > 0 && (forall i :: 0 <= i < |r| ==> IsSeparator(r[i])) && IsWord(w)
    ensures Collapse(r + w) == "-" + w
  {
    WordHasNoSeparator(w);
    CollapseUnchanged(w);
    var t := r + w;
    assert t[0] == r[0] && t[1..] == r[1..] + w;
    DropSeparatorsRun(r[1..], w);
    assert Collapse(t) == "-" + Collapse(DropSeparators(t[1..]));
  }

  lemma WordHasNoSeparator(w: string)
    requires IsWord(w)
    ensures forall i :: 0 <= i < |w| ==> !IsSpace(w[i]) && w[i] != '-'
  {
    forall i | 0 <= i < |w| ensures !IsSpace(w[i]) && w[i] != '-' {
      WordCharNotSeparator(w[i]);
    }
  }

  /** Two words with a whitespace run between them slugify to the lower-cased
      words joined by one hyphen. */
  lemma SlugifyTwoWords(a: string, m: string, b: string)
    requires IsWord(a) && IsWord(b) && AllSpace(m) && |m| > 0
    ensures Slugify(a + m + b) == Lower(a) + "-" + Lower(b)
  {
    KeptAndStripped(a, m, b);
    LoweredAndCollapsed(a, m, b);
  }

  /** The shape of `slugify("Hello, World!") == "hello-world"`: punctuation after the
      first word and after the second is dropped, the space becomes a hyphen. */
  lemma SlugifyPunctuatedWords(a: string, b: string)
    requires IsWord(a) && IsWord(b)
    ensures Slugify(a + ", " + b + "!") == Lower(a) + "-" + Lower(b)
  {
    var t := a + ", " + b + "!";
    DropPunctuationConcat(a + ", " + b, "!");
    DropPunctuationConcat(a + ", ", b);
    DropPunctuationConcat(a, ", ");
    DropPunctuationUnchanged(a);
    DropPunctuationUnchanged(b);
    assert DropPunctuation(", ") == " ";
    assert DropPunctuation("!") == [];
    KeptAndStripped(a, " ", b);
    LoweredAndCollapsed(a, " ", b);
    assert DropPunctuation(t) == a + " " + b;
  }

  /** The shape of `slugify("  multiple   spaces  ") == "multiple-spaces"`: outer
      whitespace is stripped and an inner whitespace run becomes one hyphen. */
  lemma SlugifySpacedWords(p: string, a: string, m: string, b: string, q: string)
    requires IsWord(a) && IsWord(b)
    requires AllSpace(p) && AllSpace(m) && AllSpace(q) && |m| > 0
    ensures Slugify(p + a + m + b + q) == Lower(a) + "-" + Lower(b)
  {
    var mid := a + m + b;
    assert p + a + m + b + q == p + mid + q;
    DropPunctuationConcat(p + mid, q);
    DropPunctuationConcat(p, mid);
    DropPunctuationUnchanged(p);
    DropPunctuationUnchanged(q);
    KeptAndStripped(a, m, b);
    assert mid[0] == a[0] && mid[|mid| - 1] == b[|b| - 1];
    StripPadded(p, mid, q);
    LoweredAndCollapsed(a, m, b);
  }

  /** `slugify("") == ""`. */
  lemma SlugifyEmpty()
    ensures Slugify("") == ""
  {
  }
}
