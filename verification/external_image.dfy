/** `ExternalImage`: the pattern `!\((?P<image_URL>\S*?)\)`, with the
    engine's default priority.

    A match is `!(`, a URL of non-whitespace characters, and `)`; the lazy
    `*?` stops at the first `)`, so the URL never contains one. */
module ExternalImagePattern {
  import opened Base

  /** The text starts with `!(`, and the `k` characters after it contain no
      whitespace and are followed by `)`. */
  predicate ClosesAfter(s: string, k: int) {
    && At(s, "!(", 0)
    && 0 <= k
    && 2 + k < |s|
    && s[2 + k] == ')'
    && forall j :: 2 <= j < 2 + k ==> !IsSpace(s[j])
  }

  /** Tries URL lengths `k`, `k + 1`, ... as the lazy `\S*?` does. */
  function Search(s: string, k: nat): (r: Option<nat>)
    requires At(s, "!(", 0)
    requires forall j :: 2 <= j < 2 + k && j < |s| ==> !IsSpace(s[j])
    ensures r.Some? ==> k <= r.value && ClosesAfter(s, r.value)
    ensures r.Some? ==> forall k' :: k <= k' < r.value ==> !ClosesAfter(s, k')
    ensures r.None? ==> forall k' :: k <= k' ==> !ClosesAfter(s, k')
    decreases |s| - k
  {
    if 2 + k >= |s| then None
    else if s[2 + k] == ')' then Some(k)
    else if IsSpace(s[2 + k]) then None
    else Search(s, k + 1)
  }

  /** The matcher: characters consumed and `image_URL`. */
  function Match(s: string): (r: Option<(nat, string)>)
    ensures r.None? <==> forall k :: !ClosesAfter(s, k)
    ensures r.Some? ==> var k := r.value.0 - 3;
              && 3 <= r.value.0 <= |s|
              && ClosesAfter(s, k)
              && r.value.1 == s[2..2 + k]
              && forall k' :: k' < k ==> !ClosesAfter(s, k')
  {
    if !At(s, "!(", 0) then None
    else match Search(s, 0)
      case None => None
      case Some(k) => Some((k + 3, s[2..2 + k]))
  }

  /** A match is `!(` + URL + `)` where the URL holds neither whitespace
      nor `)`: it ends at the first `)`. */
  lemma MatchShape(s: string)
    requires Match(s).Some?
    ensures var (n, url) := Match(s).value;
            && s[..n] == "!(" + url + ")"
            && Lacks(url, ')')
            && forall j :: 0 <= j < |url| ==> !IsSpace(url[j])
  {
    var (n, url) := Match(s).value;
    var k := n - 3;
    assert s[..n] == s[..2] + s[2..2 + k] + [s[2 + k]];
    forall j | 0 <= j < |url| ensures url[j] != ')' {
      assert url[j] == s[2 + j];
      if url[j] == ')' {
        assert ClosesAfter(s, j);
      }
    }
  }
}
