/** `InternalLinkLongForm`: an optional `[link text]` followed by a BGG
    URL in parentheses, priority 6, children parsed. The pattern is

      (?:\[(?P<link_text>.*?)\])?
      \(https?://.*?boardgamegeek\.com[^)\s]*
      /(?P<link_type>\S+?)/(?P<object_ID>\d+)\S*?\)

    The greedy `[^)\s]*` makes the regex keep the LAST `/type/ID` pair of
    the URL (so `.../thread/555/article/777#777` names the article), and
    the lazy `\S+?` makes the type the shortest one for that pair.

    That holds only inside one URL. As written, three parts of the pattern
    may run past the `)` that closes the URL into a later link on the same
    line:
    - the `.*?` before the host, which may cross `)` and spaces, so an
      ordinary link followed by a BGG link is swallowed into one match (see
      `AsWrittenSwallows`);
    - the `.*?` of the link text, which may cross `](`, so a bracketed text
      whose target is not a web address is swallowed too (see
      `AsWrittenTextSwallows`);
    - the `\S+?` of the link type, which may cross `)`, so a BGG link with
      no `/type/ID` pair reaches into the next link's pair (see
      `AsWrittenTypeSwallows`).
    `Match` is the reading the code evidently intends: the URL stops at its
    first `)` or whitespace, and the link text stops at the first `](`. */
module InternalLinkPattern {
  import opened Base
  import opened Captures

  const Host := "boardgamegeek.com"

  /** A `/` followed by a digit at `q`, both before `w`. */
  predicate SlashDigit(s: string, q: int, w: int) {
    0 <= q && q + 1 < w <= |s| && s[q] == '/' && IsDigit(s[q + 1])
  }

  /** The last `/`-digit position in `[lo, hi)`. */
  function LastSlashDigit(s: string, lo: nat, hi: nat, w: nat): (r: Option<nat>)
    requires w <= |s|
    ensures r.Some? ==> lo <= r.value < hi && SlashDigit(s, r.value, w)
    ensures r.Some? ==> forall q :: r.value < q < hi ==> !SlashDigit(s, q, w)
    ensures r.None? ==> forall q :: lo <= q < hi ==> !SlashDigit(s, q, w)
    decreases hi
  {
    if hi <= lo then None
    else if SlashDigit(s, hi - 1, w) then Some(hi - 1)
    else LastSlashDigit(s, lo, hi - 1, w)
  }

  /** The last `/` in `[lo, hi)`. */
  function LastSlash(s: string, lo: nat, hi: nat): (r: Option<nat>)
    requires hi <= |s|
    ensures r.Some? ==> lo <= r.value < hi && s[r.value] == '/'
    ensures r.Some? ==> forall p :: r.value < p < hi ==> s[p] != '/'
    ensures r.None? ==> forall p :: lo <= p < hi ==> s[p] != '/'
    decreases hi
  {
    if hi <= lo then None
    else if s[hi - 1] == '/' then Some(hi - 1)
    else LastSlash(s, lo, hi - 1)
  }

  /** A reading of the URL opened at `o`: the host at `h`, the link type
      between the slashes at `p` and `q`, and the ID after `q`, all inside
      the URL, which ends with `)` at its first `)` or whitespace. */
  predicate UrlReads(s: string, o: nat, h: int, p: int, q: int) {
    && UrlStart(s, o).Some?
    && var a := UrlStart(s, o).value;
       var w := UrlEnd(s, a);
       && w < |s| && s[w] == ')'
       && a <= h && At(s, Host, h) && h + |Host| <= p
       && p + 1 < q && SlashDigit(s, q, w)
       && s[p] == '/'
  }

  /** The reading the regex takes: the first host, the last `/`-digit pair
      after it, and the last `/` before that pair. Returns the slash
      positions `h`, `p`, `q` and the position `w` of the closing `)`. */
  function MatchUrl(s: string, o: nat): (r: Option<(nat, nat, nat, nat)>)
    ensures r.Some? ==> var (h, p, q, w) := r.value;
              && Picked(s, o, h, p, q)
              && w == UrlEnd(s, UrlStart(s, o).value)
              && p < q && q + 1 < w < |s|
    ensures r.None? <==> forall h, p, q :: !UrlReads(s, o, h, p, q)
  {
    match UrlStart(s, o)
    case None => None
    case Some(a) =>
      var w := UrlEnd(s, a);
      if w == |s| || s[w] != ')' then None
      else match Find(s, Host, a)
        case None => None
        case Some(h) =>
          if w < h + |Host| then None
          else match LastSlashDigit(s, h + |Host|, w, w)
            case None => None
            case Some(q) =>
              match LastSlash(s, h + |Host|, q - 1)
              case None => None
              case Some(p) =>
                MatchUrlChoice(s, o, a, w, h, p, q);
                Some((h, p, q, w))
  }

  /** The choices `MatchUrl` makes are a reading, with the greatest `p` and,
      for that `p`, the least `q`. */
  lemma MatchUrlChoice(s: string, o: nat, a: nat, w: nat, h: nat, p: nat, q: nat)
    requires UrlStart(s, o) == Some(a) && w == UrlEnd(s, a) && w < |s| && s[w] == ')'
    requires Find(s, Host, a) == Some(h)
    requires LastSlashDigit(s, h + |Host|, w, w) == Some(q)
    requires LastSlash(s, h + |Host|, q - 1) == Some(p)
    ensures UrlReads(s, o, h, p, q)
    ensures forall h', p', q' :: UrlReads(s, o, h', p', q') ==> p' <= p
    ensures forall h', q' :: UrlReads(s, o, h', p, q') ==> q <= q'
  {
    assert UrlReads(s, o, h, p, q);
    forall m | q < m ensures !SlashDigit(s, m, w) {
      if m < w {
        assert !SlashDigit(s, m, w);
      }
    }
    ReadingIsPicked(s, o, h, p, q);
  }

  /** The pieces a reading captures: `link_type` and `object_ID`. */
  function Parts(s: string, linkText: Option<string>, p: nat, q: nat): (r: LinkParts)
    requires p < q < |s|
    ensures r.linkText == linkText && r.linkType == s[p + 1..q]
    ensures AllDigits(r.objectId) && |r.objectId| <= |s| - q - 1
    ensures forall k :: 0 <= k < |r.objectId| ==> r.objectId[k] == s[q + 1 + k]
    ensures q + 1 + |r.objectId| < |s| ==> !IsDigit(s[q + 1 + |r.objectId|])
  {
    var d := DigitRunEnd(s, q + 1);
    LinkParts(linkText, s[p + 1..q], s[q + 1..d])
  }

  /** The optional link text: `[` at the start, then up to the first `](`
      with no line break in between. Returns the index of that `]`. */
  function TextEnd(s: string): (r: Option<nat>)
    ensures r.Some? ==> At(s, "[", 0) && 1 <= r.value && r.value + 2 <= |s| && At(s, "](", r.value)
    ensures r.Some? ==> forall m :: 1 <= m < r.value ==> !At(s, "](", m) && s[m] != '\n'
    ensures r.None? ==> !At(s, "[", 0) || forall t :: 1 <= t && At(s, "](", t) ==>
              exists m :: 1 <= m < t && s[m] == '\n'
  {
    if !At(s, "[", 0) then None
    else match Find(s, "](", 1)
      case None => None
      case Some(t) =>
        if exists m :: 1 <= m < t && s[m] == '\n' then None
        else Some(t)
  }

  /** The matcher: characters consumed and `link_parts`. */
  function Match(s: string): (r: Option<(nat, LinkParts)>)
    ensures r.Some? ==> exists o, h, p, q :: Chosen(s, o, h, p, q, r.value)
    ensures r.None? <==> forall o, h, p, q :: StartsAt(s, o) ==> !UrlReads(s, o, h, p, q)
  {
    var o := if At(s, "[", 0) && TextEnd(s).Some? then TextEnd(s).value + 1 else 0;
    if At(s, "[", 0) && TextEnd(s).None? then
      None
    else
      match MatchUrl(s, o)
      case None => None
      case Some((h, p, q, w)) =>
        ChosenOfMatchUrl(s, o, h, p, q, w);
        Some((w + 1, Parts(s, if o == 0 then None else Some(s[1..o - 1]), p, q)))
  }

  lemma ChosenOfMatchUrl(s: string, o: nat, h: nat, p: nat, q: nat, w: nat)
    requires StartsAt(s, o) && MatchUrl(s, o) == Some((h, p, q, w))
    ensures p < q < |s| && (o == 0 || 2 <= o <= |s|)
    ensures Chosen(s, o, h, p, q, (w + 1, Parts(s, if o == 0 then None else Some(s[1..o - 1]), p, q)))
  {
  }

  /** Where the URL may open: at the start when there is no link text,
      or just after the text's closing `]`. */
  predicate StartsAt(s: string, o: nat) {
    if At(s, "[", 0) then TextEnd(s) == Some(o - 1) && 1 <= o - 1
    else o == 0
  }

  /** The reading with the greatest `p` and, for it, the least `q`. */
  ghost predicate Picked(s: string, o: nat, h: int, p: int, q: int) {
    && UrlReads(s, o, h, p, q)
    && (forall h', p', q' :: UrlReads(s, o, h', p', q') ==> p' <= p)
    && (forall h', q' :: UrlReads(s, o, h', p, q') ==> q <= q')
  }

  /** `v` is what the regex reports for the URL opened at `o`: the reading
      with the greatest `p` and, for it, the least `q`; the text consumed
      runs to the `)` closing the URL. */
  ghost predicate Chosen(s: string, o: nat, h: int, p: int, q: int, v: (nat, LinkParts)) {
    && StartsAt(s, o)
    && Picked(s, o, h, p, q)
    && v.0 == UrlEnd(s, UrlStart(s, o).value) + 1
    && v.1 == Parts(s, if o == 0 then None else Some(s[1..o - 1]), p, q)
  }

  /** What a match looks like: the captures are well formed; the link
      text, when there is one, is well placed; and the match ends with the
      `)` that closes the URL, which holds no other `)`. */
  predicate Shaped(s: string, n: nat, parts: LinkParts) {
    && CapturesShaped(parts)
    && Closed(s, if parts.linkText.Some? then |parts.linkText.value| + 2 else 0, n)
    && (parts.linkText.Some? ==> TextShaped(s, parts.linkText.value))
  }

  /** The ID is a non-empty run of digits; the type is non-empty and free
      of whitespace. */
  predicate CapturesShaped(parts: LinkParts) {
    && 0 < |parts.objectId| && AllDigits(parts.objectId)
    && 0 < |parts.linkType|
    && forall k :: 0 <= k < |parts.linkType| ==> !IsSpace(parts.linkType[k])
  }

  /** The text from `o` up to `n` ends with its only `)`. */
  predicate Closed(s: string, o: nat, n: nat) {
    && o < n <= |s| && s[n - 1] == ')'
    && forall m :: o <= m < n - 1 ==> s[m] != ')'
  }

  /** The text `t` sits between a leading `[` and the first `](`, on one
      line. */
  predicate TextShaped(s: string, t: string) {
    && |t| + 2 <= |s|
    && s[..|t| + 2] == "[" + t + "]"
    && At(s, "](", |t| + 1)
    && Lacks(t, '\n')
  }

  lemma MatchShape(s: string, n: nat, parts: LinkParts)
    requires Match(s) == Some((n, parts))
    ensures Shaped(s, n, parts)
  {
    var o, h, p, q :| Chosen(s, o, h, p, q, (n, parts));
    ChosenShape(s, o, h, p, q, n, parts);
  }

  /** What a chosen reading reports has that shape. */
  lemma ChosenShape(s: string, o: nat, h: int, p: int, q: int, n: nat, parts: LinkParts)
    requires Chosen(s, o, h, p, q, (n, parts))
    ensures Shaped(s, n, parts)
  {
    PartsShape(s, o, h, p, q, parts);
    UrlShape(s, o, h, p, q, n);
    if parts.linkText.Some? {
      TextShape(s, o, parts.linkText.value);
    }
  }

  lemma PartsShape(s: string, o: nat, h: int, p: int, q: int, parts: LinkParts)
    requires UrlReads(s, o, h, p, q)
    requires parts == Parts(s, parts.linkText, p, q)
    ensures CapturesShaped(parts)
  {
    assert IsDigit(s[q + 1]);
    forall k | 0 <= k < |parts.linkType| ensures !IsSpace(parts.linkType[k]) {
      assert parts.linkType[k] == s[p + 1 + k];
    }
  }

  lemma UrlShape(s: string, o: nat, h: int, p: int, q: int, n: nat)
    requires UrlReads(s, o, h, p, q)
    requires n == UrlEnd(s, UrlStart(s, o).value) + 1
    ensures Closed(s, o, n)
  {
    UrlStartChars(s, o);
  }

  lemma TextShape(s: string, o: nat, t: string)
    requires StartsAt(s, o) && o != 0 && t == s[1..o - 1]
    ensures |t| + 2 == o && TextShaped(s, t)
  {
    assert s[..o] == s[..1] + s[1..o - 1] + s[o - 1..o];
    assert s[o - 1..o] == s[o - 1..o + 1][..1];
    forall k | 0 <= k < |t| ensures t[k] != '\n' {
      assert t[k] == s[1 + k];
    }
  }

  /** Two readings that both take the greatest `p` and the least `q` for it
      are the same reading. */
  lemma PickedUnique(s: string, o: nat, h: int, p: int, q: int, h': int, p': int, q': int)
    requires Picked(s, o, h, p, q) && Picked(s, o, h', p', q')
    ensures p == p' && q == q'
  {
  }

  /** No `/`-digit pair starts strictly between `p + 1` and the slash at
      `q` when no `/` does before `q - 1`. */
  lemma NoSlashDigitBetween(s: string, p: int, q: int, w: int)
    requires 0 <= p < q < |s| && s[q] == '/'
    requires forall m :: p < m < q - 1 ==> s[m] != '/'
    ensures forall m :: p + 1 < m < q ==> !SlashDigit(s, m, w)
  {
    forall m | p + 1 < m < q ensures !SlashDigit(s, m, w) {
      if m == q - 1 {
        assert !IsDigit(s[m + 1]);
      } else {
        assert s[m] != '/';
      }
    }
  }

  /** A reading after which no `/`-digit pair follows in the URL, and whose
      type holds no `/` before its last character, is the one taken. */
  lemma ReadingIsPicked(s: string, o: nat, h: int, p: int, q: int)
    requires UrlReads(s, o, h, p, q)
    requires forall m :: q < m ==> !SlashDigit(s, m, UrlEnd(s, UrlStart(s, o).value))
    requires forall m :: p < m < q - 1 ==> s[m] != '/'
    ensures Picked(s, o, h, p, q)
  {
    var w := UrlEnd(s, UrlStart(s, o).value);
    NoSlashDigitBetween(s, p, q, w);
    forall h', p', q' | UrlReads(s, o, h', p', q') ensures p' <= p {
      assert SlashDigit(s, q', w);
      assert q' <= q;
      assert s[p'] == '/' && p' < q - 1;
    }
    forall h', q' | UrlReads(s, o, h', p, q') ensures q <= q' {
      assert SlashDigit(s, q', w) && p + 1 < q';
    }
  }

  /** The URL `(https://boardgamegeek.com/thread/555/article/777#777)`. */
  lemma LastPairScheme(s: string)
    requires s == "(https://" + Host + "/thread/555/article/777#777" + ")"
    ensures |s| == 54 && UrlStart(s, 0) == Some(9)
  {
    var u := Host + "/thread/555/article/777#777";
    assert s == "" + "(https://" + (u + ")");
    AtJoin("", "(https://", u + ")");
  }
  lemma LastPairUrlEnd(s: string)
    requires s == "(https://" + Host + "/thread/555/article/777#777" + ")"
    ensures UrlEnd(s, 9) == 53
  {
    var u := Host + "/thread/555/article/777#777";
    assert UrlChars(u);
    UrlEndJoin("(https://", u, ")");
    assert s == "(https://" + u + ")";
  }
  lemma LastPairHost(s: string)
    requires s == "(https://" + Host + "/thread/555/article/777#777" + ")"
    ensures At(s, Host, 9)
  {
    AtJoin("(https://", Host, "/thread/555/article/777#777" + ")");
    assert s == "(https://" + Host + ("/thread/555/article/777#777" + ")");
  }
  lemma LastPairPositions(s: string)
    requires s == "(https://" + Host + "/thread/555/article/777#777" + ")"
    ensures forall m :: 45 < m < 53 ==> !SlashDigit(s, m, 53)
    ensures forall m :: 37 < m < 44 ==> s[m] != '/'
    ensures s[38..45] == "article" && s[46..49] == "777" && !IsDigit(s[49])
  {
  }

  /** The positions of its pieces. */
  lemma LastPairFacts(s: string)
    requires s == "(https://" + Host + "/thread/555/article/777#777" + ")"
    ensures |s| == 54 && UrlStart(s, 0) == Some(9) && UrlEnd(s, 9) == 53
    ensures UrlReads(s, 0, 9, 37, 45)
    ensures forall m :: 45 < m ==> !SlashDigit(s, m, 53)
    ensures forall m :: 37 < m < 44 ==> s[m] != '/'
    ensures s[38..45] == "article" && s[46..49] == "777" && !IsDigit(s[49])
  {
    LastPairScheme(s); LastPairUrlEnd(s); LastPairHost(s); LastPairPositions(s);
  }

  /** Some link is found whenever the URL where one may open has a reading. */
  lemma ReadingGivesSome(s: string, o: nat, h: int, p: int, q: int)
    requires StartsAt(s, o) && UrlReads(s, o, h, p, q)
    ensures Match(s).Some?
  {
  }

  /** The reading with the greatest `p` and, for it, the least `q`, of the
      URL where one may open, is the link's. */
  lemma PickedGivesMatch(s: string, o: nat, h: int, p: int, q: int)
    requires StartsAt(s, o) && Picked(s, o, h, p, q)
    ensures p < q < |s|
    ensures Match(s) == Some((UrlEnd(s, UrlStart(s, o).value) + 1,
                              Parts(s, if o == 0 then None else Some(s[1..o - 1]), p, q)))
  {
    ReadingGivesSome(s, o, h, p, q);
    var n, parts := MatchValue(s, o, h, p, q);
    assert Match(s) == Some((n, parts));
  }

  /** `PickedGivesMatch` with the consumed length and the captures given
      by value. */
  lemma ReadingMatch(s: string, o: nat, h: int, p: int, q: int, n: nat, parts: LinkParts)
    requires StartsAt(s, o) && Picked(s, o, h, p, q)
    requires UrlStart(s, o).Some? && n == UrlEnd(s, UrlStart(s, o).value) + 1
    requires p < q < |s| && parts == Parts(s, if o == 0 then None else Some(s[1..o - 1]), p, q)
    ensures Match(s) == Some((n, parts))
  {
    PickedGivesMatch(s, o, h, p, q);
  }

  /** The components of the match, named through the reading it reports. */
  lemma MatchValue(s: string, o: nat, h: int, p: int, q: int) returns (n: nat, parts: LinkParts)
    requires StartsAt(s, o) && Picked(s, o, h, p, q) && Match(s).Some?
    ensures Match(s).value == (n, parts)
    ensures n == UrlEnd(s, UrlStart(s, o).value) + 1
    ensures p < q < |s| && parts == Parts(s, if o == 0 then None else Some(s[1..o - 1]), p, q)
  {
    var v := Match(s).value;
    var o', h', p', q' :| Chosen(s, o', h', p', q', v);
    StartsAtUnique(s, o, o');
    PickedUnique(s, o, h, p, q, h', p', q');
    ChosenValue(s, o, h', p, q, v);
    n, parts := v.0, v.1;
  }

  /** Where the URL may open is determined by `s`. */
  lemma StartsAtUnique(s: string, o: nat, o': nat)
    requires StartsAt(s, o) && StartsAt(s, o')
    ensures o == o'
  {
  }

  lemma ChosenValue(s: string, o: nat, h: int, p: int, q: int, v: (nat, LinkParts))
    requires Chosen(s, o, h, p, q, v)
    ensures p < q < |s|
    ensures v.0 == UrlEnd(s, UrlStart(s, o).value) + 1
    ensures v.1 == Parts(s, if o == 0 then None else Some(s[1..o - 1]), p, q)
  {
  }

  lemma LastPairParts(s: string)
    requires s == "(https://" + Host + "/thread/555/article/777#777" + ")"
    ensures Parts(s, None, 37, 45) == LinkParts(None, "article", "777")
  {
    LastPairFacts(s);
    var parts := Parts(s, None, 37, 45);
    assert |parts.objectId| == 3 by {
      assert IsDigit(s[46]) && IsDigit(s[47]) && IsDigit(s[48]);
    }
    assert parts.objectId == s[46..49];
  }

  /** The URL names two objects, a thread and an article in it; the link
      is to the last one, the article. */
  lemma LastPairExample(s: string)
    requires s == "(https://" + Host + "/thread/555/article/777#777" + ")"
    ensures Match(s) == Some((54, LinkParts(None, "article", "777")))
  {
    LastPairFacts(s);
    ReadingIsPicked(s, 0, 9, 37, 45);
    assert !At(s, "[", 0) by {
      assert s[0..1][0] == s[0] == '(';
    }
    PickedGivesMatch(s, 0, 9, 37, 45);
    LastPairParts(s);
  }

  // The pattern as written.

  /** No line break in `[lo, hi)`: what the regex's `.*?` may cross. */
  predicate NoLineBreak(s: string, lo: int, hi: int)
    requires 0 <= lo && hi <= |s|
  {
    forall m :: lo <= m < hi ==> s[m] != '\n'
  }

  /** A way the pattern as written matches at the start of `s`: the URL
      opens at `o`, after the link text `s[1..o - 1]` if there is one; the
      host is at `h`; the type lies between the slashes at `p` and `q`; the
      ID digits run to `d`; and the closing `)` is at `e`. */
  predicate AsWrittenReads(s: string, o: int, h: int, p: int, q: int, d: int, e: int) {
    && 0 <= o && o + 8 <= h && h + |Host| <= p && p + 1 < q && q + 1 < d <= e < |s|
    && (o == 0 || (At(s, "[", 0) && 2 <= o && s[o - 1] == ']' && NoLineBreak(s, 1, o - 1)))
    && UrlStart(s, o).Some? && UrlStart(s, o).value <= h
    && NoLineBreak(s, UrlStart(s, o).value, h)
    && At(s, Host, h)
    && (forall m :: h + |Host| <= m < p ==> s[m] != ')' && !IsSpace(s[m]))
    && s[p] == '/' && NoSpace(s, p + 1, q)
    && s[q] == '/' && (forall m :: q + 1 <= m < d ==> IsDigit(s[m]))
    && NoSpace(s, d, e) && s[e] == ')'
  }

  // BGG links of the plain form `[t](https://boardgamegeek.com/ty/id)`.

  /** The opening of a BGG URL: the scheme and the host. */
  const UrlHead: string := "(https://" + Host

  /** What the lemmas below need of a URL opening `u`: the facts `UrlHead`
      has. */
  predicate UrlHeadShaped(u: string) {
    && |u| == 26 && At(u, "(https://", 0) && At(u, Host, 9)
    && forall k :: 1 <= k < 26 ==> '!' <= u[k] <= '~' && u[k] != ')'
  }

  lemma UrlHeadShape()
    ensures UrlHeadShaped(UrlHead)
  {
    UrlHeadAt();
    UrlHeadChars();
  }

  lemma UrlHeadAt()
    ensures |UrlHead| == 26 && At(UrlHead, "(https://", 0) && At(UrlHead, Host, 9)
  {
    AtJoin("", "(https://", Host);
    assert "" + "(https://" + Host == UrlHead;
    AtJoin("(https://", Host, "");
    assert "(https://" + Host + "" == UrlHead;
  }

  lemma UrlHeadChars()
    ensures forall k :: 1 <= k < 26 ==> '!' <= UrlHead[k] <= '~' && UrlHead[k] != ')'
  {
    var v := "https://" + Host;
    assert UrlChars(v);
    assert UrlHead == "(" + v;
    forall k | 1 <= k < 26 ensures '!' <= UrlHead[k] <= '~' && UrlHead[k] != ')' {
      assert UrlHead[k] == v[k - 1];
    }
  }

  /** A link with text `t` to the object `ty`/`id`, its URL opened by `u`. */
  function Link(t: string, u: string, ty: string, id: string): string {
    "[" + t + "]" + u + "/" + ty + "/" + id + ")"
  }

  /** `[t](https://boardgamegeek.com/ty/id)`. */
  function LinkText(t: string, ty: string, id: string): string {
    Link(t, UrlHead, ty, id)
  }

  /** A text, type and ID that a link built from them reads back: the text
      has no `]` and no line break, the type is a non-empty URL run with no
      `/`, and the ID is a non-empty run of digits. */
  predicate Readable(t: string, ty: string, id: string) {
    && Lacks(t, ']') && Lacks(t, '\n')
    && 0 < |ty| && UrlChars(ty) && Lacks(ty, '/')
    && 0 < |id| && AllDigits(id)
  }

  /** `s` holds, from `k`, a link laid out as `Link(t, u, ty, id)` is: the
      text from `k + 1`, the URL opening at `o`, the slashes at `p` and `q`
      around the type, the ID after `q`, and the closing `)` at `w`. */
  predicate LinkShaped(s: string, k: nat, t: string, u: string, ty: string, id: string) {
    var o := k + |t| + 2;
    var p := o + 26;
    var q := p + 1 + |ty|;
    var w := q + 1 + |id|;
    && |u| == 26 && |s| == w + 1
    && s[k] == '[' && s[o - 1] == ']' && s[p] == '/' && s[q] == '/' && s[w] == ')'
    && (forall j :: 0 <= j < |t| ==> s[k + 1 + j] == t[j])
    && (forall j :: 0 <= j < 26 ==> s[o + j] == u[j])
    && (forall j :: 0 <= j < |ty| ==> s[p + 1 + j] == ty[j])
    && (forall j :: 0 <= j < |id| ==> s[q + 1 + j] == id[j])
  }

  lemma LinkLayout(pre: string, t: string, u: string, ty: string, id: string)
    requires |u| == 26
    ensures LinkShaped(pre + Link(t, u, ty, id), |pre|, t, u, ty, id)
  {
    var s := pre + Link(t, u, ty, id);
    var k := |pre|;
    var o := k + |t| + 2;
    forall j | 0 <= j < |t| ensures s[k + 1 + j] == t[j] {
      TextChar(pre, t, u, ty, id, j);
    }
    forall j | 0 <= j < 26 ensures s[o + j] == u[j] {
      HeadChar(pre, t, u, ty, id, j);
    }
    forall j | 0 <= j < |ty| ensures s[o + 27 + j] == ty[j] {
      TypeChar(pre, t, u, ty, id, j);
    }
    forall j | 0 <= j < |id| ensures s[o + 28 + |ty| + j] == id[j] {
      IdChar(pre, t, u, ty, id, j);
    }
  }

  /** The characters of each piece, one index at a time. */
  lemma TextChar(pre: string, t: string, u: string, ty: string, id: string, j: int)
    requires 0 <= j < |t|
    ensures (pre + Link(t, u, ty, id))[|pre| + 1 + j] == t[j]
  {
  }

  lemma HeadChar(pre: string, t: string, u: string, ty: string, id: string, j: int)
    requires 0 <= j < |u|
    ensures (pre + Link(t, u, ty, id))[|pre| + |t| + 2 + j] == u[j]
  {
  }

  lemma TypeChar(pre: string, t: string, u: string, ty: string, id: string, j: int)
    requires 0 <= j < |ty|
    ensures (pre + Link(t, u, ty, id))[|pre| + |t| + |u| + 3 + j] == ty[j]
  {
  }

  lemma IdChar(pre: string, t: string, u: string, ty: string, id: string, j: int)
    requires 0 <= j < |id|
    ensures (pre + Link(t, u, ty, id))[|pre| + |t| + |u| + |ty| + 4 + j] == id[j]
  {
  }

  /** The URL of a laid-out link opens with the scheme and the host. */
  lemma ShapedHead(s: string, k: nat, t: string, u: string, ty: string, id: string)
    requires LinkShaped(s, k, t, u, ty, id) && UrlHeadShaped(u)
    ensures var o := k + |t| + 2;
            s[o] == '(' && At(s, "(https://", o) && At(s, Host, o + 9)
  {
    var o := k + |t| + 2;
    forall pat, i | At(u, pat, i) ensures At(s, pat, o + i) {
      assert s[o + i..o + i + |pat|] == u[i..i + |pat|];
    }
    assert u[0] == u[0..9][0];
  }

  /** The URL opens just after the text's `]`. */
  lemma ShapedOpens(s: string, t: string, u: string, ty: string, id: string)
    requires LinkShaped(s, 0, t, u, ty, id) && UrlHeadShaped(u) && Readable(t, ty, id)
    ensures StartsAt(s, |t| + 2)
  {
    ShapedHead(s, 0, t, u, ty, id);
    var e := |t| + 1;
    AtByChars(s, "[", 0);
    AtByChars(s, "](", e);
    forall m | 1 <= m < e ensures !At(s, "](", m) && s[m] != '\n' {
      assert s[m] == t[m - 1];
      NotAtByChar(s, "](", m, 0);
    }
    assert Find(s, "](", 1) == Some(e);
  }

  /** The runs of a laid-out link that the pattern as written crosses:
      no line break from its `[` to the end of the URL opening, no
      whitespace in the type, digits in the ID. */
  lemma ShapedRuns(s: string, k: nat, t: string, u: string, ty: string, id: string)
    requires LinkShaped(s, k, t, u, ty, id) && UrlHeadShaped(u) && Readable(t, ty, id)
    ensures var p := k + |t| + 28;
            var q := p + 1 + |ty|;
            && NoLineBreak(s, k, p)
            && NoSpace(s, p + 1, q)
            && (forall m :: q + 1 <= m < q + 1 + |id| ==> IsDigit(s[m]))
  {
    var o := k + |t| + 2;
    var p := o + 26;
    var q := p + 1 + |ty|;
    ShapedHead(s, k, t, u, ty, id);
    forall m | k < m < p ensures s[m] != '\n' {
      if m < o - 1 {
        assert s[m] == t[m - k - 1];
      } else if o < m {
        assert s[m] == u[m - o];
      }
    }
    forall m | p + 1 <= m < q ensures !IsSpace(s[m]) {
      assert s[m] == ty[m - p - 1];
    }
    forall m | q + 1 <= m < q + 1 + |id| ensures IsDigit(s[m]) {
      assert s[m] == id[m - q - 1];
    }
  }

  /** A laid-out link whose text has no whitespace has none from its `[`
      up to the slash before the ID. */
  lemma ShapedNoSpace(s: string, k: nat, t: string, u: string, ty: string, id: string)
    requires LinkShaped(s, k, t, u, ty, id) && UrlHeadShaped(u) && Readable(t, ty, id)
    requires forall j :: 0 <= j < |t| ==> !IsSpace(t[j])
    ensures NoSpace(s, k, k + |t| + 29 + |ty|)
  {
    var o := k + |t| + 2;
    var p := o + 26;
    var q := p + 1 + |ty|;
    ShapedHead(s, k, t, u, ty, id);
    forall m | k < m < q ensures !IsSpace(s[m]) {
      if m < o - 1 {
        assert s[m] == t[m - k - 1];
      } else if o < m < p {
        assert s[m] == u[m - o];
      } else if p < m {
        assert s[m] == ty[m - p - 1];
      }
    }
  }

  /** The URL of a laid-out link runs from the host to the closing `)`. */
  lemma ShapedUrlEnd(s: string, t: string, u: string, ty: string, id: string)
    requires LinkShaped(s, 0, t, u, ty, id) && UrlHeadShaped(u) && Readable(t, ty, id)
    ensures var o := |t| + 2;
            && UrlStart(s, o) == Some(o + 9)
            && UrlEnd(s, o + 9) == o + 28 + |ty| + |id|
  {
    ShapedHead(s, 0, t, u, ty, id);
    var o := |t| + 2;
    var p := o + 26;
    var q := p + 1 + |ty|;
    var w := q + 1 + |id|;
    forall j | o + 9 <= j < w ensures s[j] != ')' && !IsSpace(s[j]) {
      if j < p {
        assert s[j] == u[j - o];
      } else if p < j < q {
        assert s[j] == ty[j - p - 1];
      } else if q < j {
        assert s[j] == id[j - q - 1];
      }
    }
  }

  /** The URL reads with the host at its start and the type and ID as
      built, and that reading is the one taken. */
  lemma ShapedPicked(s: string, t: string, u: string, ty: string, id: string)
    requires LinkShaped(s, 0, t, u, ty, id) && UrlHeadShaped(u) && Readable(t, ty, id)
    ensures var o := |t| + 2;
            Picked(s, o, o + 9, o + 26, o + 27 + |ty|)
  {
    var o := |t| + 2;
    var p := o + 26;
    var q := p + 1 + |ty|;
    var w := q + 1 + |id|;
    ShapedReads(s, t, u, ty, id);
    ShapedSlashes(s, t, u, ty, id, w);
    ReadingIsPicked(s, o, o + 9, p, q);
  }

  /** No `/` inside the type, and no `/`-digit pair after the one before
      the ID. */
  lemma ShapedSlashes(s: string, t: string, u: string, ty: string, id: string, w: int)
    requires LinkShaped(s, 0, t, u, ty, id) && Readable(t, ty, id)
    requires w == |t| + 30 + |ty| + |id|
    ensures var p := |t| + 28;
            var q := p + 1 + |ty|;
            && (forall m :: q < m ==> !SlashDigit(s, m, w))
            && (forall m :: p < m < q - 1 ==> s[m] != '/')
  {
    var p := |t| + 28;
    var q := p + 1 + |ty|;
    forall m | q < m ensures !SlashDigit(s, m, w) {
      if m < w { assert s[m] == id[m - q - 1]; }
    }
    forall m | p < m < q - 1 ensures s[m] != '/' {
      assert s[m] == ty[m - p - 1];
    }
  }

  lemma ShapedReads(s: string, t: string, u: string, ty: string, id: string)
    requires LinkShaped(s, 0, t, u, ty, id) && UrlHeadShaped(u) && Readable(t, ty, id)
    ensures var o := |t| + 2;
            && UrlEnd(s, o + 9) == o + 28 + |ty| + |id|
            && UrlReads(s, o, o + 9, o + 26, o + 27 + |ty|)
  {
    ShapedHead(s, 0, t, u, ty, id);
    ShapedUrlEnd(s, t, u, ty, id);
    var o := |t| + 2;
    assert s[o + 28 + |ty|] == id[0];
  }

  /** The captures of that reading are the text, type and ID built in. */
  lemma ShapedCaptures(s: string, t: string, u: string, ty: string, id: string)
    requires LinkShaped(s, 0, t, u, ty, id) && Readable(t, ty, id)
    ensures var o := |t| + 2;
            Parts(s, Some(s[1..o - 1]), o + 26, o + 27 + |ty|) == LinkParts(Some(t), ty, id)
  {
    var o := |t| + 2;
    var p := o + 26;
    var q := p + 1 + |ty|;
    var w := q + 1 + |id|;
    forall j | q + 1 <= j < w ensures IsDigit(s[j]) {
      assert s[j] == id[j - q - 1];
    }
    assert DigitRunEnd(s, q + 1) == w;
    assert s[1..o - 1] == t;
    assert s[p + 1..q] == ty;
    assert s[q + 1..w] == id;
  }

  /** A laid-out link is found, and reads back its text, type and ID. */
  lemma ShapedMatch(s: string, t: string, u: string, ty: string, id: string)
    requires LinkShaped(s, 0, t, u, ty, id) && UrlHeadShaped(u) && Readable(t, ty, id)
    ensures Match(s) == Some((|s|, LinkParts(Some(t), ty, id)))
  {
    var o := |t| + 2;
    ShapedOpens(s, t, u, ty, id);
    ShapedUrlEnd(s, t, u, ty, id);
    ShapedPicked(s, t, u, ty, id);
    ShapedCaptures(s, t, u, ty, id);
    ReadingMatch(s, o, o + 9, o + 26, o + 27 + |ty|, |s|, LinkParts(Some(t), ty, id));
  }

  /** Any such link is found, and reads back its text, type and ID. */
  lemma LinkMatch(t: string, u: string, ty: string, id: string)
    requires UrlHeadShaped(u) && Readable(t, ty, id)
    ensures Match(Link(t, u, ty, id)) == Some((|Link(t, u, ty, id)|, LinkParts(Some(t), ty, id)))
  {
    var s := Link(t, u, ty, id);
    LinkLayout("", t, u, ty, id);
    assert "" + s == s;
    ShapedMatch(s, t, u, ty, id);
  }

  /** `[t](https://boardgamegeek.com/ty/id)` is found with text `t`, type
      `ty` and ID `id`, and consumed whole. */
  lemma LinkTextMatch(t: string, ty: string, id: string)
    requires Readable(t, ty, id)
    ensures Match(LinkText(t, ty, id)) == Some((|LinkText(t, ty, id)|, LinkParts(Some(t), ty, id)))
  {
    UrlHeadShape();
    LinkMatch(t, UrlHead, ty, id);
  }

  /** `[t](https://boardgamegeek.com/thread/id)`, the BGG link of the
      examples below, is found whole. */
  lemma ThreadLinkMatch(t: string, id: string)
    requires (t == "b" || t == "y") && (id == "1" || id == "12")
    ensures |LinkText(t, "thread", id)| == 38 + |id|
    ensures Match(LinkText(t, "thread", id)) == Some((38 + |id|, LinkParts(Some(t), "thread", id)))
  {
    assert Readable(t, "thread", id);
    UrlHeadShape();
    LinkTextMatch(t, "thread", id);
  }

  /** An ordinary link followed on the same line by a BGG link:
      `[a](https://x.com) and [b](https://boardgamegeek.com/thread/12)`. */
  predicate IsSwallowExample(s: string) {
    s == "[a]" + "(https://" + "x.com" + ") and " + LinkText("b", "thread", "12")
  }

  /** The ordinary link opens its URL at 3, which closes at 17, whatever
      follows. */
  lemma PlainLinkThen(rest: string)
    ensures var s := "[a]" + "(https://" + "x.com" + ") and " + rest;
            && |s| == 23 + |rest|
            && s[0] == '[' && s[1] == 'a' && s[2] == ']' && s[3] == '('
            && UrlStart(s, 3) == Some(12) && UrlEnd(s, 12) == 17 && s[17] == ')'
            && NoLineBreak(s, 1, 23)
  {
    var s := "[a]" + "(https://" + "x.com" + ") and " + rest;
    AtJoin("[a]", "(https://", "x.com" + ") and " + rest);
    assert s == "[a]" + "(https://" + ("x.com" + ") and " + rest);
    UrlEndJoin("[a]" + "(https://", "x.com", ") and " + rest);
    assert s == "[a]" + "(https://" + "x.com" + (") and " + rest);
  }

  /** The URL the ordinary link opens closes before any host could fit, so
      no link is found at the start, whatever follows. */
  lemma PlainLinkNone(rest: string)
    ensures Match("[a]" + "(https://" + "x.com" + ") and " + rest) == None
  {
    var s := "[a]" + "(https://" + "x.com" + ") and " + rest;
    PlainLinkThen(rest);
    AtByChars(s, "[", 0);
    AtByChars(s, "](", 2);
    NotAtByChar(s, "](", 1, 0);
    assert TextEnd(s) == Some(2);
    forall o, h, p, q | StartsAt(s, o) ensures !UrlReads(s, o, h, p, q) {
      assert o == 3;
    }
  }

  /** The pattern as written reads a text `a` closed at 2 and a URL opened
      at 3 on to the BGG link laid out from 23. */
  lemma SwallowReadsOf(s: string, u: string)
    requires |s| == 63 && s[0] == '[' && s[2] == ']'
    requires UrlStart(s, 3) == Some(12) && NoLineBreak(s, 1, 23)
    requires LinkShaped(s, 23, "b", u, "thread", "12") && UrlHeadShaped(u) && At(s, Host, 35)
    ensures AsWrittenReads(s, 3, 35, 52, 59, 62, 62)
  {
    AtByChars(s, "[", 0);
    ShapedRuns(s, 23, "b", u, "thread", "12");
    assert NoLineBreak(s, 12, 35);
  }

  /** The BGG link that follows lies at 23. */
  lemma SwallowSecond(s: string)
    requires IsSwallowExample(s)
    ensures LinkShaped(s, 23, "b", UrlHead, "thread", "12")
    ensures At(s, Host, 35) && s[26] == '('
    ensures s[23..] == LinkText("b", "thread", "12")
  {
    var pre := "[a]" + "(https://" + "x.com" + ") and ";
    UrlHeadShape();
    LinkLayout(pre, "b", UrlHead, "thread", "12");
    ShapedHead(s, 23, "b", UrlHead, "thread", "12");
    assert s[23..] == LinkText("b", "thread", "12");
  }

  /** The pattern as written reads the example as one link, with text `a`
      and a URL running from `https://x.com` over the first link's `)` to
      the end of the line: the first link disappears. */
  lemma AsWrittenSwallows(s: string)
    requires IsSwallowExample(s)
    ensures AsWrittenReads(s, 3, 35, 52, 59, 62, 62)
    ensures |s| == 63 && s[17] == ')'
  {
    PlainLinkThen(LinkText("b", "thread", "12"));
    SwallowSecond(s);
    UrlHeadShape();
    SwallowReadsOf(s, UrlHead);
  }

  /** The intended matcher finds no link at the start of the example, since
      the URL opened there closes at its `)` with no BGG host before it. It
      does find the BGG link that follows. */
  lemma IntendedSkipsSwallow(s: string)
    requires IsSwallowExample(s)
    ensures Match(s) == None
    ensures Match(s[23..]) == Some((40, LinkParts(Some("b"), "thread", "12")))
  {
    PlainLinkNone(LinkText("b", "thread", "12"));
    SwallowSecond(s);
    ThreadLinkMatch("b", "12");
  }

  /** A link whose target is not a web address, then a BGG link:
      `[a](x) [b](https://boardgamegeek.com/thread/1)`. */
  predicate IsTextSwallowExample(s: string) {
    s == "[a](x) " + LinkText("b", "thread", "1")
  }

  lemma TextSwallowPieces(s: string)
    requires IsTextSwallowExample(s)
    ensures LinkShaped(s, 7, "b", UrlHead, "thread", "1")
    ensures At(s, "(https://", 10) && At(s, Host, 19)
    ensures |s| == 46 && s[0] == '[' && s[1..7] == "a](x) " && NoLineBreak(s, 1, 7)
    ensures s[7..] == LinkText("b", "thread", "1")
  {
    var pre, rest := "[a](x) ", LinkText("b", "thread", "1");
    assert |pre| == 7 && |"b"| == 1;
    BrokenLinkThen(rest);
    LinkAfter(pre, "b", "thread", "1");
  }

  /** A BGG link laid out after any `pre`, with its scheme and host. */
  lemma LinkAfter(pre: string, t: string, ty: string, id: string)
    ensures var s := pre + LinkText(t, ty, id);
            var o := |pre| + |t| + 2;
            && LinkShaped(s, |pre|, t, UrlHead, ty, id)
            && At(s, "(https://", o) && At(s, Host, o + 9)
            && s[|pre|..] == LinkText(t, ty, id)
  {
    var s := pre + LinkText(t, ty, id);
    UrlHeadShape();
    LinkLayout(pre, t, UrlHead, ty, id);
    ShapedHead(s, |pre|, t, UrlHead, ty, id);
    assert s[|pre|..] == LinkText(t, ty, id);
  }

  /** As written, the lazy `.*?` of the link text finds no URL after the
      first `](`, so it runs on to the next one: the text is `a](x) [b` and
      the BGG link's URL completes the match. */
  lemma AsWrittenTextSwallows(s: string)
    requires IsTextSwallowExample(s)
    ensures |s| == 46 && AsWrittenReads(s, 10, 19, 36, 43, 45, 45)
    ensures s[1..9] == "a](x) [b"
  {
    TextSwallowPieces(s);
    UrlHeadShape();
    TextSwallowReadsOf(s, UrlHead);
  }

  /** The pattern as written reads a text from 1 over the BGG link's `[`
      laid out from 7, and that link's URL. */
  lemma TextSwallowReadsOf(s: string, u: string)
    requires |s| == 46 && s[0] == '[' && s[1..7] == "a](x) " && NoLineBreak(s, 1, 7)
    requires LinkShaped(s, 7, "b", u, "thread", "1") && UrlHeadShaped(u) && At(s, Host, 19)
    ensures AsWrittenReads(s, 10, 19, 36, 43, 45, 45)
    ensures s[1..9] == "a](x) [b"
  {
    AtByChars(s, "[", 0);
    ShapedRuns(s, 7, "b", u, "thread", "1");
    assert s[8] == "b"[0];
    assert s[1..9] == s[1..7] + [s[7], s[8]];
  }

  /** A text `[a]` closed by `](` whose URL is not a web address, whatever
      follows. */
  lemma BrokenLinkThen(rest: string)
    ensures var s := "[a](x) " + rest;
            && |s| == 7 + |rest| && s[0] == '[' && s[1..7] == "a](x) " && NoLineBreak(s, 1, 7)
            && TextEnd(s) == Some(2) && MatchUrl(s, 3) == None && Match(s) == None
  {
    var s := "[a](x) " + rest;
    assert s[0] == '[' && s[1] == 'a' && s[2] == ']' && s[3] == '(' && s[4] == 'x';
    AtByChars(s, "[", 0);
    AtByChars(s, "](", 2);
    NotAtByChar(s, "](", 1, 0);
    NotAtByChar(s, "(https://", 3, 1);
    NotAtByChar(s, "(http://", 3, 1);
    assert s[1..7] == "a](x) ";
  }

  /** The intended matcher ends the link text at the first `](`; the URL
      there is not a web address, so it finds no link at the start. It does
      find the BGG link that follows. */
  lemma IntendedTextStops(s: string)
    requires IsTextSwallowExample(s)
    ensures Match(s) == None
    ensures Match(s[7..]) == Some((39, LinkParts(Some("b"), "thread", "1")))
  {
    BrokenLinkThen(LinkText("b", "thread", "1"));
    assert s[7..] == LinkText("b", "thread", "1");
    ThreadLinkMatch("b", "1");
  }

  /** A BGG link with no `/type/ID` pair, followed without a space by a BGG
      link: `[x](https://boardgamegeek.com/a)[y](https://boardgamegeek.com/thread/1)`. */
  predicate IsTypeSwallowExample(s: string) {
    s == "[x]" + UrlHead + "/a)" + LinkText("y", "thread", "1")
  }

  /** The first link opens its URL at 3, with the host at 12, and the URL
      closes at 31 with no `/`-digit pair in it, whatever follows. */
  lemma TypeLinkThen(rest: string)
    ensures var s := "[x]" + UrlHead + "/a)" + rest;
            && |s| == 32 + |rest| && s[0] == '[' && s[1] == 'x' && s[2] == ']'
            && UrlStart(s, 3) == Some(12) && At(s, Host, 12)
            && s[29] == '/' && s[30] == 'a' && s[31] == ')' && UrlEnd(s, 12) == 31
  {
    UrlHeadShape();
    var tail := "/a)" + rest;
    var s := "[x]" + (UrlHead + tail);
    assert s == "[x]" + UrlHead + "/a)" + rest;
    AtAppend(UrlHead, tail, "(https://", 0);
    AtPrepend("[x]", UrlHead + tail, "(https://", 0);
    AtAppend(UrlHead, tail, Host, 9);
    AtPrepend("[x]", UrlHead + tail, Host, 9);
    forall j | 12 <= j < 31 ensures s[j] != ')' && !IsSpace(s[j]) {
      if j < 29 { assert s[j] == UrlHead[j - 3]; }
    }
  }

  /** No link is found at the start of such a text: its URL closes before
      any `/`-digit pair. */
  lemma TypeLinkNone(rest: string)
    ensures Match("[x]" + UrlHead + "/a)" + rest) == None
  {
    var s := "[x]" + UrlHead + "/a)" + rest;
    TypeLinkThen(rest);
    AtByChars(s, "[", 0);
    AtByChars(s, "](", 2);
    NotAtByChar(s, "](", 1, 0);
    assert TextEnd(s) == Some(2);
    forall o, h, p, q | StartsAt(s, o) ensures !UrlReads(s, o, h, p, q) {
      assert o == 3;
    }
  }

  lemma TypeSwallowPieces(s: string)
    requires IsTypeSwallowExample(s)
    ensures |s| == 71 && s[0] == '[' && s[1] == 'x' && s[2] == ']'
    ensures UrlStart(s, 3) == Some(12) && At(s, Host, 12)
    ensures s[29] == '/' && s[30] == 'a' && s[31] == ')'
    ensures LinkShaped(s, 32, "y", UrlHead, "thread", "1")
    ensures s[32..] == LinkText("y", "thread", "1")
  {
    UrlHeadShape();
    TypeLinkThen(LinkText("y", "thread", "1"));
    LinkLayout("[x]" + UrlHead + "/a)", "y", UrlHead, "thread", "1");
    assert s[32..] == LinkText("y", "thread", "1");
  }

  /** The pattern as written reads a text `x` closed at 2, the host at 12,
      and a type from 30 running over the `)` at 31 to the slash at 68
      before the next link's ID. */
  lemma TypeSwallowReadsOf(s: string, u: string)
    requires |s| == 71 && s[0] == '[' && s[1] == 'x' && s[2] == ']'
    requires UrlStart(s, 3) == Some(12) && At(s, Host, 12)
    requires s[29] == '/' && s[30] == 'a' && s[31] == ')'
    requires LinkShaped(s, 32, "y", u, "thread", "1") && UrlHeadShaped(u)
    ensures AsWrittenReads(s, 3, 12, 29, 68, 70, 70)
  {
    AtByChars(s, "[", 0);
    assert Readable("y", "thread", "1");
    ShapedRuns(s, 32, "y", u, "thread", "1");
    ShapedNoSpace(s, 32, "y", u, "thread", "1");
  }

  /** As written, the lazy `\S+?` of the type finds no `/`-digit pair
      inside the first URL, so it crosses that URL's `)` and the next
      link's opening, and takes `a)[y](https://boardgamegeek.com/thread` as
      the type and `1` as the ID. */
  lemma AsWrittenTypeSwallows(s: string)
    requires IsTypeSwallowExample(s)
    ensures |s| == 71 && AsWrittenReads(s, 3, 12, 29, 68, 70, 70)
    ensures s[31] == ')'
  {
    TypeSwallowPieces(s);
    UrlHeadShape();
    TypeSwallowReadsOf(s, UrlHead);
  }

  /** The intended matcher ends the URL at its first `)`, where it has no
      `/type/ID` pair, so it finds no link at the start. It does find the
      BGG link that follows. */
  lemma IntendedTypeStops(s: string)
    requires IsTypeSwallowExample(s)
    ensures Match(s) == None
    ensures Match(s[32..]) == Some((39, LinkParts(Some("y"), "thread", "1")))
  {
    TypeLinkNone(LinkText("y", "thread", "1"));
    TypeSwallowPieces(s);
    ThreadLinkMatch("y", "1");
  }
}
