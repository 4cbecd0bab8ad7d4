/** `Strikethrough`: the pattern `~~(.+?)~~`, priority 4, children parsed.

    A match at the start of the text is `~~`, a body of at least one
    character containing no line break (`.`), and `~~`; the lazy `+?` makes
    the body the shortest such. */
module StrikethroughPattern {
  import opened Base

  /** The text starts with `~~`, and a body of `k` characters without a
      line break is followed by `~~`. */
  predicate ClosesAfter(s: string, k: int) {
    && At(s, "~~", 0)
    && 1 <= k
    && At(s, "~~", 2 + k)
    && forall j :: 2 <= j < 2 + k ==> s[j] != '\n'
  }

  /** Tries body lengths `k`, `k + 1`, ... in the order the lazy `.+?`
      does, given that the first `k - 1` body characters are not line
      breaks. */
  function Search(s: string, k: nat): (r: Option<nat>)
    requires At(s, "~~", 0) && 1 <= k
    requires forall j :: 2 <= j < 1 + k && j < |s| ==> s[j] != '\n'
    ensures r.Some? ==> k <= r.value && ClosesAfter(s, r.value)
    ensures r.Some? ==> forall k' :: k <= k' < r.value ==> !ClosesAfter(s, k')
    ensures r.None? ==> forall k' :: k <= k' ==> !ClosesAfter(s, k')
    decreases |s| - k
  {
    if 4 + k > |s| then None
    else if s[1 + k] == '\n' then None
    else if s[2 + k..4 + k] == "~~" then Some(k)
    else Search(s, k + 1)
  }

  /** The matcher: characters consumed and the body, captured as group 1. */
  function Match(s: string): (r: Option<(nat, string)>)
    ensures r.None? <==> forall k :: !ClosesAfter(s, k)
    ensures r.Some? ==> var k := r.value.0 - 4;
              && 4 < r.value.0 <= |s|
              && ClosesAfter(s, k)
              && r.value.1 == s[2..2 + k]
              && forall k' :: k' < k ==> !ClosesAfter(s, k')
  {
    if !At(s, "~~", 0) then None
    else match Search(s, 1)
      case None => None
      case Some(k) => Some((k + 4, s[2..2 + k]))
  }

  /** What a match looks like: `~~`, a non-empty body without line breaks,
      `~~`. No `~~` starts inside the body after its first character; the
      body itself may start with `~~` (see `LeadingTildesExample`). */
  lemma MatchShape(s: string)
    requires Match(s).Some?
    ensures var (n, body) := Match(s).value;
            && s[..n] == "~~" + body + "~~"
            && 0 < |body| && Lacks(body, '\n')
            && forall j :: 2 < j < 2 + |body| ==> !At(s, "~~", j)
  {
    var (n, body) := Match(s).value;
    var k := n - 4;
    assert s[..n] == s[..2] + s[2..2 + k] + s[2 + k..n];
    forall j | 2 < j < 2 + |body| ensures !At(s, "~~", j) {
      assert !ClosesAfter(s, j - 2);
    }
  }

  lemma Example()
    ensures Match("~~gone~~ and ~~back~~") == Some((8, "gone"))
  {
    var s := "~~gone~~ and ~~back~~";
    assert s[..2] == "~~" && s[6..8] == "~~";
    assert s[3..5] != "~~" by { assert s[3..5][0] == s[3]; }
    assert s[4..6] != "~~" by { assert s[4..6][0] == s[4]; }
    assert s[5..7] != "~~" by { assert s[5..7][0] == s[5]; }
    assert Search(s, 1) == Some(4);
    assert s[2..6] == "gone";
  }

  /** The lazy body may begin with `~~`: in `~~~~x~~` the first closing
      `~~` after a non-empty body is the last one. */
  lemma LeadingTildesExample()
    ensures Match("~~~~x~~") == Some((7, "~~x"))
  {
    var s := "~~~~x~~";
    assert s[..2] == "~~" && s[5..7] == "~~";
    assert s[3..5] != "~~" by { assert s[3..5][1] == s[4]; }
    assert s[4..6] != "~~" by { assert s[4..6][0] == s[4]; }
    assert Search(s, 1) == Some(3);
    assert s[2..5] == "~~x";
  }
}
