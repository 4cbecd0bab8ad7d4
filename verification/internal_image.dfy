/** `InternalImageLongForm`: a BGG image URL in `!( )`, with an optional
    size word, priority 7. The pattern is

      !\(https?://\S*?boardgamegeek.com\S*?
      /image/(?P<image_ID>\d+)\S*?(?: +(?P<size>\S+))?\)

    The `.` of `boardgamegeek.com` is not escaped, so as written it stands
    for any character but a line break, a space included (see
    `AsWrittenSpacedHost`). In `Match` the host lies inside the URL, so
    there it stands for any character but whitespace and `)`.

    As written, the `\S` runs may cross a `)`. An external image followed
    without a space by a BGG image is swallowed into one internal image (see
    `AsWrittenSwallows`), and a sized image inside parentheses takes the
    outer `)` into its size word (see `AsWrittenSizeCrossesClose`). `Match`
    is the reading the code evidently intends: the URL stops at its first
    `)` or whitespace, and so does the size word. */
module InternalImagePattern {
  import opened Base
  import opened Captures

  /** `boardgamegeek`, any character but a line break, `com`, at `g`.
      Inside a URL run the middle character is also neither whitespace nor
      `)`. */
  predicate HostAt(s: string, g: int) {
    && At(s, "boardgamegeek", g)
    && At(s, "com", g + 14)
    && s[g + 13] != '\n'
  }

  /** `/image/` followed by a digit at `m`, all before `w`. */
  predicate ImageAt(s: string, m: int, w: int) {
    && 0 <= m && m + 7 < w <= |s|
    && At(s, "/image/", m)
    && IsDigit(s[m + 7])
  }

  /** The text opens with `!(http://` or `!(https://`; the URL then runs to
      its first `)` or whitespace. */
  predicate Opens(s: string) {
    At(s, "!", 0) && UrlStart(s, 1).Some?
  }

  function UrlEndOf(s: string): (w: nat)
    requires Opens(s)
    ensures UrlStart(s, 1).value <= w <= |s|
  {
    UrlEnd(s, UrlStart(s, 1).value)
  }

  /** A reading of the URL: the host at `g` and `/image/` at `m` after it,
      both inside the URL. */
  predicate Reads(s: string, g: int, m: int) {
    && Opens(s)
    && UrlStart(s, 1).value <= g
    && g + 17 <= m
    && ImageAt(s, m, UrlEndOf(s))
    && HostAt(s, g)
  }

  /** The first host at or after `from` that ends by `w`. */
  function FindHost(s: string, from: nat, w: nat): (r: Option<nat>)
    requires w <= |s|
    ensures r.Some? ==> from <= r.value && r.value + 17 <= w && HostAt(s, r.value)
    ensures r.Some? ==> forall g :: from <= g < r.value ==> !HostAt(s, g)
    ensures r.None? ==> forall g :: from <= g && g + 17 <= w ==> !HostAt(s, g)
    decreases w - from
  {
    if w < from + 17 then None
    else if HostAt(s, from) then Some(from)
    else FindHost(s, from + 1, w)
  }

  /** The first `/image/`-digit at or after `from`, before `w`. */
  function FindImage(s: string, from: nat, w: nat): (r: Option<nat>)
    requires w <= |s|
    ensures r.Some? ==> from <= r.value && ImageAt(s, r.value, w)
    ensures r.Some? ==> forall m :: from <= m < r.value ==> !ImageAt(s, m, w)
    ensures r.None? ==> forall m :: from <= m ==> !ImageAt(s, m, w)
    decreases w - from
  {
    if w < from + 8 then None
    else if ImageAt(s, from, w) then Some(from)
    else FindImage(s, from + 1, w)
  }

  /** The reading the regex takes: the first host, then the first
      `/image/` after it. Returns the host position `g` and the position
      `m` of that `/image/`. */
  function Locate(s: string): (r: Option<(nat, nat)>)
    ensures r.Some? ==> Opens(s) && r.value.1 + 7 < |s|
  {
    if !Opens(s) then None
    else
      var w := UrlEndOf(s);
      match FindHost(s, UrlStart(s, 1).value, w)
      case None => None
      case Some(g) =>
        match FindImage(s, g + 17, w)
        case None => None
        case Some(m) => Some((g, m))
  }

  /** `Locate` finds a reading whenever there is one, and its `/image/`
      is the first of any reading. */
  lemma LocateIsFirst(s: string)
    ensures Locate(s).Some? ==> Reads(s, Locate(s).value.0, Locate(s).value.1)
    ensures Locate(s).Some? ==> forall g, m :: Reads(s, g, m) ==> Locate(s).value.1 <= m
    ensures Locate(s).None? ==> forall g, m :: !Reads(s, g, m)
  {
    if Opens(s) {
      var w := UrlEndOf(s);
      var a := UrlStart(s, 1).value;
      if FindHost(s, a, w).Some? {
        var g := FindHost(s, a, w).value;
        forall g', m' | Reads(s, g', m') ensures g <= g' && FindImage(s, g + 17, w).Some? {
          assert g <= g';
          assert ImageAt(s, m', w);
        }
        if FindImage(s, g + 17, w).Some? {
          var m := FindImage(s, g + 17, w).value;
          forall g', m' | Reads(s, g', m') ensures m <= m' {
            assert g <= g';
          }
        }
      }
    }
  }

  /** End of the run of plain spaces (` +`) starting at `from`. */
  function SpaceRunEnd(s: string, from: nat): (z: nat)
    requires from <= |s|
    ensures from <= z <= |s|
    ensures forall k :: from <= k < z ==> s[k] == ' '
    ensures z < |s| ==> s[z] != ' '
    decreases |s| - from
  {
    if from == |s| || s[from] != ' ' then from
    else SpaceRunEnd(s, from + 1)
  }

  /** A size word from `z` to a `)` at `y`: no `)` or whitespace in it. */
  predicate SizeWord(s: string, z: int, y: int) {
    && 0 <= z < y < |s| && s[y] == ')'
    && forall k :: z <= k < y ==> s[k] != ')' && !IsSpace(s[k])
  }

  /** What follows the URL ending at `w`: `)` alone, or spaces, a size word
      and `)`. Returns the optional size and the characters consumed. */
  function Tail(s: string, w: nat): (r: Option<(Option<string>, nat)>)
    requires w <= |s|
    ensures r.Some? ==> w < r.value.1 <= |s| && s[r.value.1 - 1] == ')'
  {
    if w == |s| then None
    else if s[w] == ')' then Some((None, w + 1))
    else if s[w] != ' ' then None
    else
      var z := SpaceRunEnd(s, w);
      var y := UrlEnd(s, z);
      if y == z || y == |s| || s[y] != ')' then None
      else Some((Some(s[z..y]), y + 1))
  }

  /** The tail is `)` right after the URL, or spaces, a non-empty size
      word free of `)` and whitespace, and `)`; nothing else is one. */
  lemma TailSpec(s: string, w: nat)
    requires w <= |s|
    ensures var r := Tail(s, w);
            && (r.Some? && r.value.0.None? ==> r.value.1 == w + 1)
            && (r.Some? && r.value.0.Some? ==>
                  var size := r.value.0.value;
                  && w < |s| && s[w] == ' '
                  && 0 < |size| && Lacks(size, ')')
                  && (forall k :: 0 <= k < |size| ==> !IsSpace(size[k]))
                  && r.value.1 - 1 - |size| > w
                  && s[r.value.1 - 1 - |size|..r.value.1 - 1] == size
                  && forall k :: w <= k < r.value.1 - 1 - |size| ==> s[k] == ' ')
            && (r.None? ==> || w == |s|
                            || (s[w] != ')' && s[w] != ' ')
                            || (s[w] == ' ' && forall y :: !SizeWord(s, SpaceRunEnd(s, w), y)))
  {
    if w < |s| && s[w] == ' ' {
      var z := SpaceRunEnd(s, w);
      var y := UrlEnd(s, z);
      if y != z && y != |s| && s[y] == ')' {
        var size := s[z..y];
        assert forall k :: 0 <= k < |size| ==> size[k] == s[z + k];
      }
    }
  }

  /** The matcher: characters consumed and `image_info`. */
  function Match(s: string): (r: Option<(nat, ImageInfo)>)
    ensures r.Some? ==> 0 < r.value.0 <= |s| && s[r.value.0 - 1] == ')'
  {
    match Locate(s)
    case None => None
    case Some((_, m)) => Finish(s, m)
  }

  /** The ID after the `/image/` at `m`, and what follows the URL. */
  function Finish(s: string, m: nat): (r: Option<(nat, ImageInfo)>)
    requires Opens(s) && m + 7 < |s|
    ensures r.Some? ==> 0 < r.value.0 <= |s| && s[r.value.0 - 1] == ')'
  {
    match Tail(s, UrlEndOf(s))
    case None => None
    case Some((size, n)) => Some((n, ImageInfo(s[m + 7..DigitRunEnd(s, m + 7)], size)))
  }

  /** `v` is what the matcher reports for the reading with the host at `g`
      and `/image/` at `m`, when no reading has an earlier `/image/`: the
      digit run after it as the ID, and the size and the characters
      consumed that follow the URL. */
  ghost predicate Reports(s: string, g: int, m: int, v: (nat, ImageInfo)) {
    && Reads(s, g, m)
    && (forall g', m' :: Reads(s, g', m') ==> m <= m')
    && v.1.imageId == s[m + 7..DigitRunEnd(s, m + 7)]
    && Tail(s, UrlEndOf(s)) == Some((v.1.size, v.0))
  }

  /** The matcher finds an image exactly when the URL has a reading and is
      closed as the pattern requires. */
  lemma MatchNone(s: string)
    ensures Match(s).None? <==> (forall g, m :: !Reads(s, g, m)) || (Opens(s) && Tail(s, UrlEndOf(s)).None?)
  {
    LocateIsFirst(s);
    if Locate(s).Some? {
      var (g, m) := Locate(s).value;
      assert Reads(s, g, m);
    }
  }

  /** What the matcher finds is reported from the first `/image/` of any
      reading. */
  lemma MatchSome(s: string)
    requires Match(s).Some?
    ensures exists g, m :: Reports(s, g, m, Match(s).value)
  {
    LocateIsFirst(s);
    var (g, m) := Locate(s).value;
    assert Reports(s, g, m, Match(s).value);
  }

  /** What a match looks like: a non-empty all-digit `image_ID`; a size
      word, when there is one, that is non-empty and holds neither `)` nor
      whitespace; and a match that ends with its only `)`. */
  predicate Shaped(s: string, n: nat, info: ImageInfo) {
    && 0 < |info.imageId| && AllDigits(info.imageId)
    && (info.size.Some? ==> 0 < |info.size.value| && Lacks(info.size.value, ')'))
    && (info.size.Some? ==> forall k :: 0 <= k < |info.size.value| ==> !IsSpace(info.size.value[k]))
    && 0 < n <= |s| && s[n - 1] == ')'
    && (forall k :: 0 <= k < n - 1 ==> s[k] != ')')
  }

  lemma MatchShape(s: string, n: nat, info: ImageInfo)
    requires Match(s) == Some((n, info))
    ensures Shaped(s, n, info)
  {
    var (g, m) := Locate(s).value;
    assert IsDigit(s[m + 7]);
    FinishShape(s, m, n, info);
  }

  /** What the matcher builds from an `/image/` followed by a digit has
      that shape. */
  lemma FinishShape(s: string, m: nat, n: nat, info: ImageInfo)
    requires Opens(s) && m + 7 < |s| && IsDigit(s[m + 7])
    requires Finish(s, m) == Some((n, info))
    ensures Shaped(s, n, info)
  {
    IdShape(s, m);
    TailSpec(s, UrlEndOf(s));
    CloseShape(s, UrlEndOf(s), info.size, n);
  }

  lemma IdShape(s: string, m: nat)
    requires m + 7 < |s| && IsDigit(s[m + 7])
    ensures var id := s[m + 7..DigitRunEnd(s, m + 7)];
            0 < |id| && AllDigits(id)
  {
    var id := s[m + 7..DigitRunEnd(s, m + 7)];
    forall k | 0 <= k < |id| ensures IsDigit(id[k]) {
      assert id[k] == s[m + 7 + k];
    }
  }

  lemma CloseShape(s: string, w: nat, size: Option<string>, n: nat)
    requires Opens(s) && w == UrlEndOf(s)
    requires Tail(s, w) == Some((size, n))
    ensures 0 < n <= |s| && s[n - 1] == ')'
    ensures forall k :: 0 <= k < n - 1 ==> s[k] != ')'
  {
    UrlStartChars(s, 1);
    assert s[0] != ')' by {
      assert s[0..1][0] == s[0];
    }
    if size.Some? {
      var v := size.value;
      forall k | n - 1 - |v| <= k < n - 1 ensures s[k] != ')' {
        assert s[k] == v[k - (n - 1 - |v|)];
      }
    }
  }

  /** A reading whose `/image/` is the URL's first is the one taken. */
  lemma MarkerIsFirst(s: string, g: int, m: int)
    requires Reads(s, g, m)
    requires forall m' :: 0 <= m' < m ==> !ImageAt(s, m', UrlEndOf(s))
    ensures Locate(s).Some? && Locate(s).value.1 == m
  {
    LocateIsFirst(s);
    var (g', m') := Locate(s).value;
    assert ImageAt(s, m', UrlEndOf(s));
  }

  /** The opening of a BGG image: `!`, the scheme, the host and `/image/`. */
  const ImageHead: string := "!" + "(https://" + "boardgamegeek" + "." + "com" + "/image/"

  /** A BGG image with ID `id`; `tail` is what follows the ID. */
  function ImageText(id: string, tail: string): string {
    ImageHead + id + tail
  }

  lemma HeadPieces()
    ensures |ImageHead| == 34 && ImageHead[0] == '!' && ImageHead[23] == '.'
    ensures At(ImageHead, "(https://", 1) && At(ImageHead, "/image/", 27)
    ensures At(ImageHead, "boardgamegeek", 10) && At(ImageHead, "com", 24)
  {
    AtJoin("!", "(https://", "boardgamegeek" + "." + "com" + "/image/");
    AtJoin("!" + "(https://", "boardgamegeek", "." + "com" + "/image/");
    AtJoin("!" + "(https://" + "boardgamegeek" + ".", "com", "/image/");
    AtJoin("!" + "(https://" + "boardgamegeek" + "." + "com", "/image/", "");
  }

  /** Before 27 no `/` of the opening is followed by `i`. */
  lemma HeadNoMarker()
    ensures forall m :: 0 <= m < 27 ==> ImageHead[m] != '/' || ImageHead[m + 1] != 'i'
  {
    var head := "!" + "(https://";
    var host := "boardgamegeek" + "." + "com";
    assert ImageHead == head + host + "/image/";
    forall m | 0 <= m < 27 ensures ImageHead[m] != '/' || ImageHead[m + 1] != 'i' {
      if m < 8 {
        assert ImageHead[m] == head[m];
      } else if m < 10 {
        assert ImageHead[m + 1] == (head + host)[m + 1];
      } else {
        assert ImageHead[m] == host[m - 10];
      }
    }
  }

  /** After the `!` the opening holds neither `)` nor whitespace. */
  lemma HeadChars()
    ensures forall k :: 1 <= k < 34 ==> '!' <= ImageHead[k] <= '~' && ImageHead[k] != ')'
  {
    var u := "(https://" + "boardgamegeek" + "." + "com" + "/image/";
    assert UrlChars(u);
    assert ImageHead == "!" + u;
    forall k | 1 <= k < 34 ensures '!' <= ImageHead[k] <= '~' && ImageHead[k] != ')' {
      assert ImageHead[k] == u[k - 1];
    }
  }

  /** What the lemmas below need of an opening `h`: the facts
      `ImageHead` has. */
  predicate HeadShaped(h: string) {
    && |h| == 34 && h[0] == '!'
    && At(h, "(https://", 1) && HostAt(h, 10) && At(h, "/image/", 27)
    && (forall m :: 0 <= m < 27 ==> h[m] != '/' || h[m + 1] != 'i')
    && (forall k :: 1 <= k < 34 ==> '!' <= h[k] <= '~' && h[k] != ')')
  }

  lemma HeadShape()
    ensures HeadShaped(ImageHead)
  {
    HeadPieces();
    HeadNoMarker();
    HeadChars();
  }

  /** Where the scheme, the host and `/image/` of `pre + h + id + tail`
      lie. */
  lemma HeadFactsAfter(pre: string, h: string, id: string, tail: string)
    requires HeadShaped(h)
    ensures var s := pre + (h + id + tail);
            var k := |pre|;
            && |s| == k + 34 + |id| + |tail|
            && s[k] == '!' && At(s, "(https://", k + 1)
            && HostAt(s, k + 10) && At(s, "/image/", k + 27)
  {
    var t := h + id + tail;
    forall pat, i | At(h, pat, i) ensures At(pre + t, pat, |pre| + i) {
      AtAppend(h, id, pat, i);
      AtAppend(h + id, tail, pat, i);
      AtPrepend(pre, t, pat, i);
    }
  }

  /** A shaped opening, then an ID and a `)` or space, opens a URL that
      ends just after the ID. */
  lemma HeadOpens(h: string, id: string, tail: string)
    requires HeadShaped(h)
    requires AllDigits(id) && 0 < |tail| && (tail[0] == ')' || tail[0] == ' ')
    ensures var s := h + id + tail;
            Opens(s) && UrlStart(s, 1) == Some(10) && UrlEndOf(s) == 34 + |id|
  {
    var s := h + id + tail;
    HeadFactsAfter("", h, id, tail);
    assert "" + s == s;
    AtByChars(s, "!", 0);
    forall j | 10 <= j < 34 + |id| ensures s[j] != ')' && !IsSpace(s[j]) {
      if j >= 34 { assert s[j] == id[j - 34]; } else { assert s[j] == h[j]; }
    }
    assert s[34 + |id|] == tail[0];
  }

  /** Its first `/image/` is the one at 27. */
  lemma HeadFirst(h: string, id: string, tail: string)
    requires HeadShaped(h)
    requires 0 < |id| && AllDigits(id) && 0 < |tail| && (tail[0] == ')' || tail[0] == ' ')
    ensures var s := h + id + tail;
            Locate(s).Some? && Locate(s).value.1 == 27
  {
    var s := h + id + tail;
    HeadOpens(h, id, tail);
    HeadFactsAfter("", h, id, tail);
    assert "" + s == s;
    assert s[34] == id[0];
    assert Reads(s, 10, 27);
    assert s[..34] == h;
    PrefixNoMarker(h, s, UrlEndOf(s));
    MarkerIsFirst(s, 10, 27);
  }

  /** A text that starts with the head has no `/image/` before 27. */
  lemma PrefixNoMarker(h: string, s: string, w: int)
    requires HeadShaped(h) && |h| <= |s| && s[..|h|] == h
    ensures forall m' :: 0 <= m' < 27 ==> !ImageAt(s, m', w)
  {
    forall m' | 0 <= m' < 27 ensures !At(s, "/image/", m') {
      assert s[m'] == h[m'] && s[m' + 1] == h[m' + 1];
      if h[m'] != '/' {
        NotAtByChar(s, "/image/", m', 0);
      } else {
        NotAtByChar(s, "/image/", m', 1);
      }
    }
  }

  /** The digit run after the `/image/` is the ID. */
  lemma ImageTextId(id: string, tail: string)
    requires AllDigits(id) && 0 < |tail| && !IsDigit(tail[0])
    ensures var s := ImageText(id, tail);
            s[34..DigitRunEnd(s, 34)] == id
  {
    var s := ImageText(id, tail);
    assert |ImageHead| == 34;
    forall j | 34 <= j < 34 + |id| ensures IsDigit(s[j]) {
      assert s[j] == id[j - 34];
    }
    assert s[34 + |id|] == tail[0];
    assert DigitRunEnd(s, 34) == 34 + |id|;
    assert s[34..34 + |id|] == id;
  }

  /** A size word `word` after a space at `w`, closed by `)`. */
  lemma TailOfSize(s: string, w: nat, word: string)
    requires 0 < |word| && UrlChars(word)
    requires w + |word| + 1 < |s| && s[w] == ' ' && s[w + |word| + 1] == ')'
    requires forall j :: 0 <= j < |word| ==> s[w + 1 + j] == word[j]
    ensures Tail(s, w) == Some((Some(word), w + |word| + 2))
  {
    assert s[w + 1] == word[0];
    assert SpaceRunEnd(s, w) == w + 1;
    forall j | w + 1 <= j < w + 1 + |word| ensures s[j] != ')' && !IsSpace(s[j]) {
      assert s[j] == word[j - w - 1];
    }
    assert UrlEnd(s, w + 1) == w + 1 + |word|;
    assert s[w + 1..w + 1 + |word|] == word;
  }

  /** After `pre`: one space, the size word `word`, and `rest`, which
      opens with `)`. */
  lemma SizeAfter(pre: string, word: string, rest: string)
    requires 0 < |word| && UrlChars(word) && 0 < |rest| && rest[0] == ')'
    ensures Tail(pre + (" " + word + rest), |pre|) == Some((Some(word), |pre| + |word| + 2))
  {
    SizeAfterChars(pre, word, rest);
    TailOfSize(pre + (" " + word + rest), |pre|, word);
  }

  lemma SizeAfterChars(pre: string, word: string, rest: string)
    requires 0 < |rest| && rest[0] == ')'
    ensures var s := pre + (" " + word + rest);
            && |pre| + |word| + 1 < |s| && s[|pre|] == ' ' && s[|pre| + |word| + 1] == ')'
            && forall j :: 0 <= j < |word| ==> s[|pre| + 1 + j] == word[j]
  {
    var tail := " " + word + rest;
    assert tail[0] == ' ' && tail[|word| + 1] == ')';
    forall j | 0 <= j < |word| ensures (pre + tail)[|pre| + 1 + j] == word[j] {
      assert tail[1 + j] == word[j];
    }
  }

  lemma ImageTextSize(id: string, word: string, rest: string)
    requires 0 < |word| && UrlChars(word) && 0 < |rest| && rest[0] == ')'
    ensures Tail(ImageText(id, " " + word + rest), 34 + |id|)
            == Some((Some(word), 36 + |id| + |word|))
  {
    SizeAfter(ImageHead + id, word, rest);
  }

  /** The match is assembled from the marker and the tail. */
  lemma MatchOfParts(s: string, m: nat, size: Option<string>, n: nat)
    requires Locate(s).Some? && Locate(s).value.1 == m
    requires Tail(s, UrlEndOf(s)) == Some((size, n))
    ensures Match(s) == Some((n, ImageInfo(s[m + 7..DigitRunEnd(s, m + 7)], size)))
  {
  }

  /** Any BGG image whose ID is followed by `)` alone, or by spaces, a size
      word and `)`, is found with that ID and size. */
  lemma ImageTextMatch(id: string, tail: string, size: Option<string>, n: nat)
    requires 0 < |id| && AllDigits(id) && 0 < |tail| && (tail[0] == ')' || tail[0] == ' ')
    requires Tail(ImageText(id, tail), 34 + |id|) == Some((size, n))
    ensures Match(ImageText(id, tail)) == Some((n, ImageInfo(id, size)))
  {
    HeadShape();
    HeadOpens(ImageHead, id, tail);
    HeadFirst(ImageHead, id, tail);
    ImageTextId(id, tail);
    MatchOfParts(ImageText(id, tail), 27, size, n);
  }

  /** `!(https://boardgamegeek.com/image/123 small)`. */
  predicate IsSizeExample(s: string) {
    s == ImageText("123", " " + "small" + ")")
  }

  /** The image `!(https://boardgamegeek.com/image/123 small)` has ID
      `123` and size `small`. */
  lemma SizeExample(s: string)
    requires IsSizeExample(s)
    ensures Match(s) == Some((44, ImageInfo("123", Some("small"))))
  {
    assert UrlChars("small") && AllDigits("123");
    ImageTextSize("123", "small", ")");
    ImageTextMatch("123", " " + "small" + ")", Some("small"), 44);
  }

  // The pattern as written.

  /** A way the pattern as written matches at the start of `s`: the host
      at `g`, `/image/` at `m`, the ID digits up to `d`, then either the
      closing `)` at `e == y`, or spaces from `y` and the size word from `z`
      up to the closing `)` at `e`. Each `\S*?` may cross a `)`. */
  predicate AsWrittenReads(s: string, g: int, m: int, d: int, y: int, z: int, e: int) {
    && Opens(s)
    && UrlStart(s, 1).value <= g && g + 17 <= m && m + 7 < d <= y <= z <= e < |s|
    && NoSpace(s, UrlStart(s, 1).value, g) && HostAt(s, g)
    && NoSpace(s, g + 17, m) && At(s, "/image/", m)
    && (forall k :: m + 7 <= k < d ==> IsDigit(s[k]))
    && NoSpace(s, d, y)
    && (y == e || (y < z < e && (forall k :: y <= k < z ==> s[k] == ' ') && NoSpace(s, z, e)))
    && s[e] == ')'
  }

  /** An external image followed, without a space, by a BGG image. */
  predicate IsSwallowExample(s: string) {
    s == "!" + "(https://" + "x.com/a.png" + ")" + ImageText("1", ")")
  }

  /** The external image opens a URL that closes at 21, whatever follows. */
  lemma ExternalThen(rest: string)
    ensures var s := "!" + "(https://" + "x.com/a.png" + ")" + rest;
            |s| == 22 + |rest| && Opens(s) && UrlStart(s, 1) == Some(10) && UrlEnd(s, 10) == 21
  {
    var s := "!" + "(https://" + "x.com/a.png" + ")" + rest;
    AtJoin("!", "(https://", "x.com/a.png" + ")" + rest);
    assert s == "!" + "(https://" + ("x.com/a.png" + ")" + rest);
    assert s[0..1][0] == s[0];
    assert UrlChars("x.com/a.png");
    UrlEndJoin("!" + "(https://", "x.com/a.png", ")" + rest);
    assert s == "!" + "(https://" + "x.com/a.png" + (")" + rest);
  }

  lemma SwallowPieces(s: string)
    requires IsSwallowExample(s)
    ensures |s| == 58 && Opens(s) && UrlStart(s, 1) == Some(10) && UrlEnd(s, 10) == 21
    ensures HostAt(s, 32) && At(s, "/image/", 49)
    ensures s[22..] == ImageText("1", ")")
  {
    ExternalThen(ImageText("1", ")"));
    HeadShape();
    var pre := "!" + "(https://" + "x.com/a.png" + ")";
    HeadFactsAfter(pre, ImageHead, "1", ")");
    assert s[22..] == ImageText("1", ")");
  }

  /** The pattern as written reads the example as one BGG image with ID 1:
      its URL runs from `https://x.com/a.png` over that image's `)` and on
      to the end, so the external image disappears. */
  lemma AsWrittenSwallows(s: string)
    requires IsSwallowExample(s)
    ensures AsWrittenReads(s, 32, 49, 57, 57, 57, 57)
    ensures |s| == 58 && s[21] == ')'
  {
    SwallowPieces(s);
    var pre := "!" + "(https://" + "x.com/a.png" + ")";
    assert forall j :: 10 <= j < 22 ==> s[j] == pre[j] && '!' <= pre[j] <= '~';
    HeadShape();
    forall j | 22 <= j < 32 ensures !IsSpace(s[j]) {
      assert s[j] == ImageHead[j - 22];
    }
    assert s[56] == '1' && s[57] == ')';
  }

  /** The intended matcher finds no BGG image at the start of the example,
      because the URL opened there closes at its `)` with no host before it.
      It does find the BGG image that follows. */
  lemma IntendedSkipsSwallow(s: string)
    requires IsSwallowExample(s)
    ensures Match(s) == None
    ensures Match(s[22..]) == Some((36, ImageInfo("1", None)))
  {
    SwallowPieces(s);
    assert forall g, m :: !Reads(s, g, m);
    assert Locate(s).None?;
    assert |ImageHead| == 34;
    assert ImageText("1", ")")[35] == ')';
    assert AllDigits("1");
    ImageTextMatch("1", ")", None, 36);
  }

  /** A BGG image URL whose host has a space where the `.` stands:
      `!(https://boardgamegeek com/image/1)`. */
  predicate IsSpacedHostExample(s: string) {
    s == "!" + "(https://" + "boardgamegeek" + " " + "com" + "/image/" + "1" + ")"
  }

  /** A URL that opens with the bare host name and then a space closes at
      that space, whatever follows. */
  lemma HostThenSpace(rest: string)
    requires 0 < |rest| && rest[0] == ' '
    ensures var s := "!" + "(https://" + "boardgamegeek" + rest;
            && |s| == 23 + |rest| && Opens(s) && UrlStart(s, 1) == Some(10)
            && UrlEndOf(s) == 23 && At(s, "boardgamegeek", 10)
  {
    assert UrlChars("boardgamegeek");
    RunThen("boardgamegeek", rest);
  }

  /** `!(https://`, a run `u` of URL characters, then `)` or whitespace:
      the URL opens at 10 and closes after `u`. */
  lemma RunThen(u: string, rest: string)
    requires UrlChars(u) && 0 < |rest| && (rest[0] == ')' || IsSpace(rest[0]))
    ensures var s := "!" + "(https://" + u + rest;
            && |s| == 10 + |u| + |rest| && Opens(s) && UrlStart(s, 1) == Some(10)
            && UrlEndOf(s) == 10 + |u| && At(s, u, 10)
  {
    var s := "!" + "(https://" + u + rest;
    assert s == "!" + "(https://" + (u + rest);
    AtJoin("!", "(https://", u + rest);
    assert s[0..1][0] == s[0];
    AtJoin("!" + "(https://", u, rest);
    UrlEndJoin("!" + "(https://", u, rest);
  }

  /** What follows the host name in the example. */
  lemma SpacedTail(pre: string)
    requires |pre| == 23
    ensures var s := pre + (" " + "com" + "/image/" + "1" + ")");
            && s[23] == ' ' && At(s, "com", 24) && At(s, "/image/", 27)
            && s[34] == '1' && s[35] == ')'
  {
    AtJoin(pre + " ", "com", "/image/" + "1" + ")");
    assert pre + (" " + "com" + "/image/" + "1" + ")") == pre + " " + "com" + ("/image/" + "1" + ")");
    AtJoin(pre + " " + "com", "/image/", "1" + ")");
    assert pre + (" " + "com" + "/image/" + "1" + ")") == pre + " " + "com" + "/image/" + ("1" + ")");
  }

  lemma SpacedHostPieces(s: string)
    requires IsSpacedHostExample(s)
    ensures |s| == 36 && Opens(s) && UrlStart(s, 1) == Some(10) && UrlEndOf(s) == 23
    ensures At(s, "boardgamegeek", 10) && s[23] == ' ' && At(s, "com", 24)
    ensures At(s, "/image/", 27) && s[34] == '1' && s[35] == ')'
  {
    var rest := " " + "com" + "/image/" + "1" + ")";
    assert s == "!" + "(https://" + "boardgamegeek" + rest;
    HostThenSpace(rest);
    SpacedTail("!" + "(https://" + "boardgamegeek");
  }

  /** As written, the unescaped `.` of the host matches the space, so the
      pattern reads the example as one BGG image with ID 1. */
  lemma AsWrittenSpacedHost(s: string)
    requires IsSpacedHostExample(s)
    ensures |s| == 36 && s[23] == ' '
    ensures AsWrittenReads(s, 10, 27, 35, 35, 35, 35)
  {
    SpacedHostPieces(s);
  }

  /** The host lies inside the URL, which stops at the space, so the
      intended matcher finds no BGG image in the example. */
  lemma IntendedSpacedHostNone(s: string)
    requires IsSpacedHostExample(s)
    ensures Match(s) == None
  {
    SpacedHostPieces(s);
    assert forall g, m :: !Reads(s, g, m);
    MatchNone(s);
  }

  /** A sized BGG image inside parentheses:
      `!(https://boardgamegeek.com/image/1 small))`. */
  predicate IsGreedySizeExample(s: string) {
    s == ImageText("1", " " + "small)" + ")")
  }

  /** As written, the pattern reads a BGG image whose URL is followed by a
      space, a word without whitespace and a `)` with the size word running
      to just before that `)`, whatever the word holds. */
  lemma HeadSizeReads(h: string, id: string, w: string)
    requires HeadShaped(h) && 0 < |id| && AllDigits(id)
    requires 0 < |w| && forall j :: 0 <= j < |w| ==> !IsSpace(w[j])
    ensures var s := h + id + (" " + w + ")");
            var d := 34 + |id|;
            && |s| == d + |w| + 2
            && AsWrittenReads(s, 10, 27, d, d, d + 1, d + 1 + |w|)
            && s[d + 1..d + 1 + |w|] == w
  {
    var tail := " " + w + ")";
    HeadOpens(h, id, tail);
    HeadFactsAfter("", h, id, tail);
    assert "" + (h + id + tail) == h + id + tail;
    SizeWordLayout(h, id, w);
  }

  /** The ID digits, the space, the size word and the `)` after the head. */
  lemma SizeWordLayout(h: string, id: string, w: string)
    requires |h| == 34 && AllDigits(id)
    requires forall j :: 0 <= j < |w| ==> !IsSpace(w[j])
    ensures var s := h + id + (" " + w + ")");
            var d := 34 + |id|;
            && (forall k :: 34 <= k < d ==> IsDigit(s[k]))
            && s[d] == ' ' && NoSpace(s, d + 1, d + 1 + |w|) && s[d + 1 + |w|] == ')'
            && s[d + 1..d + 1 + |w|] == w
  {
    var s := h + id + (" " + w + ")");
    var d := 34 + |id|;
    forall k | 34 <= k < d ensures IsDigit(s[k]) {
      assert s[k] == id[k - 34];
    }
    forall k | d + 1 <= k < d + 1 + |w| ensures !IsSpace(s[k]) {
      assert s[k] == w[k - d - 1];
    }
    assert s[d + 1..d + 1 + |w|] == w;
  }

  /** As written, the example has two readings with the same host, marker,
      ID and spaces: one whose size ends at the first `)`, at 41, and one
      whose size runs over it to the second `)`, at 42, and none ends
      later. The greedy `\S+` of the size word takes the longest, so the
      size is `small)` and the `)` that closes the surrounding parenthesis
      is consumed. */
  lemma AsWrittenSizeCrossesClose(s: string)
    requires IsGreedySizeExample(s)
    ensures |s| == 43 && AsWrittenReads(s, 10, 27, 35, 35, 36, 42)
    ensures s[36..42] == "small)"
    ensures AsWrittenReads(s, 10, 27, 35, 35, 36, 41)
    ensures forall e :: AsWrittenReads(s, 10, 27, 35, 35, 36, e) ==> e <= 42
  {
    HeadShape();
    HeadSizeReads(ImageHead, "1", "small)");
    assert s[41] == s[36..42][5];
    GreedyClose(s);
  }

  /** Of the readings that end the size at a `)` of the example, 42 is the
      last; the one at 41 is a reading too. */
  lemma GreedyClose(s: string)
    requires |s| == 43 && AsWrittenReads(s, 10, 27, 35, 35, 36, 42) && s[41] == ')'
    ensures AsWrittenReads(s, 10, 27, 35, 35, 36, 41)
    ensures forall e :: AsWrittenReads(s, 10, 27, 35, 35, 36, e) ==> e <= 42
  {
  }

  /** The intended matcher ends the size word at the first `)`. */
  lemma IntendedSizeStopsAtClose(s: string)
    requires IsGreedySizeExample(s)
    ensures Match(s) == Some((42, ImageInfo("1", Some("small"))))
  {
    assert UrlChars("small") && AllDigits("1");
    assert " " + "small)" + ")" == " " + "small" + "))";
    ImageTextSize("1", "small", "))");
    ImageTextMatch("1", " " + "small" + "))", Some("small"), 42);
  }
}
