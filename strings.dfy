/** The pieces of Python's `str` behaviour the converter relies on:
    `isspace` (and with it `\s` and `strip()`), substring search and `split(sep, maxsplit)`. */
module Strings {
  import opened Wrappers

  /** `str.isspace()` for a single character, which is also the class `\s` matches
      in a `str` pattern: the ASCII controls TAB..CR and FS..US, SPACE, and the
      Unicode separators NEL, NBSP, OGHAM SPACE MARK, EN QUAD..HAIR SPACE,
      LINE/PARAGRAPH SEPARATOR, NARROW NBSP, MEDIUM MATHEMATICAL SPACE and
      IDEOGRAPHIC SPACE. */
  predicate IsSpace(c: char) {
    || ('\t' <= c <= '\r')
    || ('\U{1C}' <= c <= ' ')
    || c == '\U{85}' || c == '\U{A0}' || c == '\U{1680}'
    || ('\U{2000}' <= c <= '\U{200A}')
    || c == '\U{2028}' || c == '\U{2029}' || c == '\U{202F}' || c == '\U{205F}'
    || c == '\U{3000}'
  }

  /** `s.lstrip()`: drops leading whitespace only. */
  function TrimStart(s: string): string {
    if s != [] && IsSpace(s[0]) then TrimStart(s[1..]) else s
  }

  /** `s.rstrip()`: drops trailing whitespace only. */
  function TrimEnd(s: string): string {
    if s != [] && IsSpace(s[|s| - 1]) then TrimEnd(s[..|s| - 1]) else s
  }

  /** `s.strip()` with no argument. */
  function Strip(s: string): string {
    TrimEnd(TrimStart(s))
  }

  /** Every character of `s` is whitespace. */
  predicate AllSpace(s: string) {
    forall i :: 0 <= i < |s| ==> IsSpace(s[i])
  }

  /** `lstrip()` removes a whitespace prefix, and all of it. */
  lemma {:induction false} TrimStartSlice(s: string)
    ensures |TrimStart(s)| <= |s| && TrimStart(s) == s[|s| - |TrimStart(s)|..]
    ensures TrimStart(s) == [] || !IsSpace(TrimStart(s)[0])
    ensures AllSpace(s[..|s| - |TrimStart(s)|])
  {
    if s != [] && IsSpace(s[0]) {
      TrimStartSlice(s[1..]);
      var k := |s| - |TrimStart(s)|;
      assert s[..k] == [s[0]] + s[1..][..k - 1];
    }
  }

  /** `rstrip()` removes a whitespace suffix, and all of it. */
  lemma {:induction false} TrimEndSlice(s: string)
    ensures |TrimEnd(s)| <= |s| && TrimEnd(s) == s[..|TrimEnd(s)|]
    ensures TrimEnd(s) == [] || !IsSpace(TrimEnd(s)[|TrimEnd(s)| - 1])
    ensures AllSpace(s[|TrimEnd(s)|..])
  {
    if s != [] && IsSpace(s[|s| - 1]) {
      TrimEndSlice(s[..|s| - 1]);
      var k := |TrimEnd(s)|;
      assert s[k..] == s[..|s| - 1][k..] + [s[|s| - 1]];
    }
  }

  /** `strip()` removes whitespace at both ends and nothing else: the result is the
      slice `s[a..a + |Strip(s)|]` and everything outside it is whitespace. */
  lemma StripSlice(s: string) returns (a: nat)
    ensures a + |Strip(s)| <= |s| && Strip(s) == s[a..a + |Strip(s)|]
    ensures AllSpace(s[..a]) && AllSpace(s[a + |Strip(s)|..])
  {
    var t := TrimStart(s);
    TrimStartSlice(s);
    a := |s| - |t|;
    var r := TrimEnd(t);
    TrimEndSlice(t);
    assert t == s[a..];
    assert r == t[..|r|];
    assert s[a + |r|..] == t[|r|..];
  }

  /** The result of `strip()` neither starts nor ends with whitespace. */
  lemma StripEnds(s: string)
    ensures Strip(s) == [] || (!IsSpace(Strip(s)[0]) && !IsSpace(Strip(s)[|Strip(s)| - 1]))
  {
    var t := TrimStart(s);
    TrimStartSlice(s);
    TrimEndSlice(t);
    var r := TrimEnd(t);
    if r != [] { assert r[0] == t[0]; }
  }

  /** A first or last character that is not whitespace survives `strip()` in place. */
  lemma StripKeepsEnds(s: string)
    ensures |s| > 0 && !IsSpace(s[0]) ==> |Strip(s)| > 0 && Strip(s)[0] == s[0]
    ensures |s| > 0 && !IsSpace(s[|s| - 1]) ==> |Strip(s)| > 0 && Strip(s)[|Strip(s)| - 1] == s[|s| - 1]
  {
    var a := StripSlice(s);
    var r := Strip(s);
    assert a > 0 ==> IsSpace(s[..a][0]) && s[..a][0] == s[0];
    assert a + |r| < |s| ==> IsSpace(s[a + |r|..][|s| - 1 - a - |r|]) && s[a + |r|..][|s| - 1 - a - |r|] == s[|s| - 1];
  }

  /** Every character `strip()` keeps was in its input. */
  lemma StripChars(s: string)
    ensures forall c :: c in Strip(s) ==> c in s
  {
    var a := StripSlice(s);
  }

  lemma {:induction false} TrimStartPadded(p: string, m: string)
    requires AllSpace(p) && (m == [] || !IsSpace(m[0]))
    ensures TrimStart(p + m) == m
  {
    if p != [] {
      assert (p + m)[1..] == p[1..] + m;
      TrimStartPadded(p[1..], m);
    } else {
      assert p + m == m;
    }
  }

  lemma {:induction false} TrimEndPadded(m: string, q: string)
    requires AllSpace(q) && (m == [] || !IsSpace(m[|m| - 1]))
    ensures TrimEnd(m + q) == m
  {
    if q != [] {
      assert (m + q)[..|m + q| - 1] == m + q[..|q| - 1];
      TrimEndPadded(m, q[..|q| - 1]);
    } else {
      assert m + q == m;
    }
  }

  /** `strip()` removes whitespace padding on either side of text that neither
      starts nor ends with whitespace, and leaves that text as it is. */
  lemma StripPadded(p: string, m: string, q: string)
    requires AllSpace(p) && AllSpace(q)
    requires m == [] || (!IsSpace(m[0]) && !IsSpace(m[|m| - 1]))
    ensures Strip(p + m + q) == m
  {
    if m == [] {
      assert p + m + q == (p + q) + [];
      assert AllSpace(p + q) by {
        forall i | 0 <= i < |p + q| ensures IsSpace((p + q)[i]) {
          if i >= |p| { assert (p + q)[i] == q[i - |p|]; }
        }
      }
      TrimStartPadded(p + q, []);
    } else {
      assert p + m + q == p + (m + q);
      TrimStartPadded(p, m + q);
      TrimEndPadded(m, q);
    }
  }

  /** `s.startswith(p)`. */
  predicate StartsWith(s: string, p: string) {
    |p| <= |s| && s[..|p|] == p
  }

  /** `t` occurs in `s` at index `i`. */
  predicate OccursAt(s: string, t: string, i: nat) {
    i + |t| <= |s| && s[i..i + |t|] == t
  }

  /** `s.find(t)` as an option: the leftmost index at which `t` occurs. */
  function Find(s: string, t: string): (r: Option<nat>)
    ensures r.Some? ==> OccursAt(s, t, r.value) && forall i: nat :: i < r.value ==> !OccursAt(s, t, i)
    ensures r.None? ==> forall i: nat :: !OccursAt(s, t, i)
  {
    FindFrom(s, t, 0)
  }

  /** The leftmost occurrence of `t` in `s` at or after `start`. */
  function FindFrom(s: string, t: string, start: nat): (r: Option<nat>)
    ensures r.Some? ==> start <= r.value && OccursAt(s, t, r.value)
    ensures r.Some? ==> forall i: nat :: start <= i < r.value ==> !OccursAt(s, t, i)
    ensures r.None? ==> forall i: nat :: start <= i ==> !OccursAt(s, t, i)
    decreases |s| - start
  {
    if start + |t| > |s| then None
    else if OccursAt(s, t, start) then Some(start)
    else FindFrom(s, t, start + 1)
  }

  /** Text appended after an occurrence does not move the leftmost one. */
  lemma FindExtend(s: string, t: string, w: string, i: nat)
    requires Find(s, t) == Some(i)
    ensures Find(s + w, t) == Some(i)
  {
    var n := i + |t|;
    assert (s + w)[..n] == s[..n];
    OccursInPrefix(s, s + w, t, n);
    FindAt(s + w, t, i);
  }

  /** An occurrence with none before it is what `Find` returns. */
  lemma FindAt(s: string, t: string, i: nat)
    requires OccursAt(s, t, i)
    requires forall k: nat :: k < i ==> !OccursAt(s, t, k)
    ensures Find(s, t) == Some(i)
  {
  }

  /** Two texts that agree on their first `n` characters have the same occurrences
      there. */
  lemma OccursInPrefix(s: string, u: string, t: string, n: nat)
    requires n <= |s| && n <= |u| && s[..n] == u[..n]
    ensures forall k: nat :: k + |t| <= n ==> (OccursAt(s, t, k) <==> OccursAt(u, t, k))
  {
    forall k: nat | k + |t| <= n ensures OccursAt(s, t, k) <==> OccursAt(u, t, k) {
      assert s[k..k + |t|] == s[..n][k..k + |t|];
      assert u[k..k + |t|] == u[..n][k..k + |t|];
    }
  }

  /** `sep.join(parts)`. */
  function Join(parts: seq<string>, sep: string): string {
    if |parts| == 0 then ""
    else if |parts| == 1 then parts[0]
    else parts[0] + sep + Join(parts[1..], sep)
  }

  /** `s.split(sep, n)` for a non-empty separator: split at the leftmost occurrences of
      `sep`, at most `n` times. Joining the parts gives back `s`; every part but the last
      is followed in `s` by the leftmost remaining occurrence of `sep`. */
  function SplitN(s: string, sep: string, n: nat): (parts: seq<string>)
    requires |sep| > 0
    ensures 1 <= |parts| <= n + 1
    ensures Join(parts, sep) == s
    ensures forall k :: 0 <= k < |parts| - 1 ==> Find(parts[k] + sep, sep) == Some(|parts[k]|)
    decreases n
  {
    if n == 0 then [s]
    else match Find(s, sep)
      case None => [s]
      case Some(i) =>
        var rest := SplitN(s[i + |sep|..], sep, n - 1);
        SplitStep(s, sep, i, rest);
        [s[..i]] + rest
  }

  /** One step of `SplitN`: cutting `s` at its leftmost separator and prepending
      the part before it keeps the three properties `SplitN` promises. */
  lemma SplitStep(s: string, sep: string, i: nat, rest: seq<string>)
    requires Find(s, sep) == Some(i)
    requires |rest| >= 1 && Join(rest, sep) == s[i + |sep|..]
    requires forall k :: 0 <= k < |rest| - 1 ==> Find(rest[k] + sep, sep) == Some(|rest[k]|)
    ensures Join([s[..i]] + rest, sep) == s
    ensures forall k :: 0 <= k < |rest| ==> Find(([s[..i]] + rest)[k] + sep, sep) == Some(|([s[..i]] + rest)[k]|)
  {
    var parts := [s[..i]] + rest;
    assert parts[1..] == rest;
    assert s == s[..i] + sep + s[i + |sep|..];
    LeftmostPrefix(s, sep, i);
    forall k | 0 <= k < |rest| ensures Find(parts[k] + sep, sep) == Some(|parts[k]|) {
      if k > 0 { assert parts[k] == rest[k - 1]; }
    }
  }

  /** The leftmost occurrence of `t` in `s` is also the leftmost one in `s[..i] + t`. */
  lemma LeftmostPrefix(s: string, t: string, i: nat)
    requires Find(s, t) == Some(i)
    ensures Find(s[..i] + t, t) == Some(i)
  {
    var p := s[..i] + t;
    var n := i + |t|;
    assert p == s[..n];
    assert p[..n] == s[..n];
    OccursInPrefix(s, p, t, n);
    FindAt(p, t, i);
  }
}
