/** Vocabulary shared by the recognizers and the renderer: optional values,
    the character classes the patterns use (Python `re` on `str`), and
    searching a string for a fixed substring. */
module Base {

  datatype Option<+T> = None | Some(value: T)

  /** A computation that either produces a value or stops with an error. */
  datatype Result<+T, +E> = Ok(value: T) | Err(error: E)

  /** Python's `\s` on `str` patterns: exactly the characters for which
      `str.isspace` holds. */
  predicate IsSpace(c: char) {
    || c == ' '
    || ('\t' <= c <= '\r')
    || ('\U{1C}' <= c <= '\U{1F}')
    || c == '\U{85}' || c == '\U{A0}' || c == '\U{1680}'
    || ('\U{2000}' <= c <= '\U{200A}')
    || c == '\U{2028}' || c == '\U{2029}' || c == '\U{202F}'
    || c == '\U{205F}' || c == '\U{3000}'
  }

  /** `\d`, restricted to the ASCII digits. */
  predicate IsDigit(c: char) {
    '0' <= c <= '9'
  }

  predicate AllDigits(s: string) {
    forall i :: 0 <= i < |s| ==> IsDigit(s[i])
  }

  /** `c` does not occur in `s`. */
  predicate Lacks(s: string, c: char) {
    forall i :: 0 <= i < |s| ==> s[i] != c
  }

  /** `pat` occurs in `s` starting at index `i`. */
  predicate At(s: string, pat: string, i: int) {
    0 <= i && i + |pat| <= |s| && s[i..i + |pat|] == pat
  }

  lemma AtJoin(a: string, pat: string, b: string)
    ensures At(a + pat + b, pat, |a|)
  {
    assert (a + pat + b)[|a|..|a| + |pat|] == pat;
  }

  /** An occurrence stays where it is when text is appended, and moves by
      `|a|` when `a` is prepended. */
  lemma AtAppend(x: string, b: string, pat: string, i: int)
    requires At(x, pat, i)
    ensures At(x + b, pat, i)
  {
    assert (x + b)[i..i + |pat|] == x[i..i + |pat|];
  }

  lemma AtPrepend(a: string, x: string, pat: string, i: int)
    requires At(x, pat, i)
    ensures At(a + x, pat, |a| + i)
  {
    assert (a + x)[|a| + i..|a| + i + |pat|] == x[i..i + |pat|];
  }

  /** `pat` occurs at `i` when it agrees with `s` character by character. */
  lemma AtByChars(s: string, pat: string, i: nat)
    requires i + |pat| <= |s|
    requires forall k :: 0 <= k < |pat| ==> s[i + k] == pat[k]
    ensures At(s, pat, i)
  {
    forall k | 0 <= k < |pat| ensures s[i..i + |pat|][k] == pat[k] {}
  }

  /** `pat` does not occur at `i` when one of its characters disagrees. */
  lemma NotAtByChar(s: string, pat: string, i: nat, k: nat)
    requires k < |pat| && i + k < |s| && s[i + k] != pat[k]
    ensures !At(s, pat, i)
  {
    if i + |pat| <= |s| {
      assert s[i..i + |pat|][k] == s[i + k];
    }
  }

  /** The first occurrence of `pat` in `s` at or after `from`. */
  function Find(s: string, pat: string, from: nat): (r: Option<nat>)
    ensures r.Some? ==> from <= r.value && At(s, pat, r.value)
    ensures r.Some? ==> forall k :: from <= k < r.value ==> !At(s, pat, k)
    ensures r.None? ==> forall k :: from <= k ==> !At(s, pat, k)
    decreases |s| - from
  {
    if from + |pat| > |s| then None
    else if s[from..from + |pat|] == pat then Some(from)
    else Find(s, pat, from + 1)
  }

  /** Where a URL run that starts at `from` stops: the first `)` or
      whitespace character at or after `from`, or `|s|` if there is none. */
  function UrlEnd(s: string, from: nat): (w: nat)
    requires from <= |s|
    ensures from <= w <= |s|
    ensures forall j :: from <= j < w ==> s[j] != ')' && !IsSpace(s[j])
    ensures w < |s| ==> s[w] == ')' || IsSpace(s[w])
    decreases |s| - from
  {
    if from == |s| || s[from] == ')' || IsSpace(s[from]) then from
    else UrlEnd(s, from + 1)
  }

  /** End of the run of digits that starts at `from` (greedy `\d*`). */
  function DigitRunEnd(s: string, from: nat): (d: nat)
    requires from <= |s|
    ensures from <= d <= |s|
    ensures forall j :: from <= j < d ==> IsDigit(s[j])
    ensures d < |s| ==> !IsDigit(s[d])
    decreases |s| - from
  {
    if from == |s| || !IsDigit(s[from]) then from
    else DigitRunEnd(s, from + 1)
  }

  /** Index just past `(http://` or `(https://` when one of them starts at
      `o`; the greedy `s?` takes the `s` whenever it is there. */
  function UrlStart(s: string, o: nat): (a: Option<nat>)
    ensures a.Some? ==> o + 8 <= a.value <= |s|
    ensures a.Some? ==> (At(s, "(https://", o) && a.value == o + 9)
                        || (At(s, "(http://", o) && a.value == o + 8)
    ensures a.None? ==> !At(s, "(https://", o) && !At(s, "(http://", o)
  {
    if At(s, "(https://", o) then Some(o + 9)
    else if At(s, "(http://", o) then Some(o + 8)
    else None
  }

  /** The scheme part `(http://` or `(https://` opens with `(` and holds
      neither `)` nor whitespace after it. */
  lemma UrlStartChars(s: string, o: nat)
    requires UrlStart(s, o).Some?
    ensures s[o] == '('
    ensures forall m :: o < m < UrlStart(s, o).value ==> s[m] != ')' && !IsSpace(s[m])
  {
    var a := UrlStart(s, o).value;
    var pat := s[o..a];
    assert pat == "(https://" || pat == "(http://";
    forall m | o <= m < a ensures s[m] == pat[m - o] {}
    forall m | o < m < a ensures s[m] != ')' && !IsSpace(s[m]) {
      assert '!' <= pat[m - o] <= '~' && pat[m - o] != ')';
    }
  }

  /** Characters a URL run may hold: visible ASCII other than `)`. */
  predicate UrlChars(u: string) {
    forall j :: 0 <= j < |u| ==> '!' <= u[j] <= '~' && u[j] != ')'
  }

  /** A URL run `u` closed by `)` or whitespace ends exactly there. */
  lemma UrlEndJoin(a: string, u: string, b: string)
    requires UrlChars(u) && 0 < |b| && (b[0] == ')' || IsSpace(b[0]))
    ensures UrlEnd(a + u + b, |a|) == |a| + |u|
  {
    var s := a + u + b;
    forall j | |a| <= j < |a| + |u| ensures s[j] != ')' && !IsSpace(s[j]) {
      assert s[j] == u[j - |a|];
    }
    assert s[|a| + |u|] == b[0];
  }

  /** No whitespace in `[lo, hi)`: what a run of `\S` may cross. */
  predicate NoSpace(s: string, lo: int, hi: int)
    requires 0 <= lo && hi <= |s|
  {
    forall m :: lo <= m < hi ==> !IsSpace(s[m])
  }
}
