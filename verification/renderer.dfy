/** `BGGRenderer`: the per-node rendering rules that turn the parsed
    document into BGG markup.

    The generic traversal (`render`, `render_children`) belongs to the
    markdown engine, so each rule here receives its children already
    rendered, as text. The list rule receives instead a function that
    renders one item under given prefixes. The renderer's only state,
    `_prefix` and `_second_prefix`, is the `Prefixes` record, passed in and
    returned explicitly. */
module Renderer {
  import opened Base
  import opened Decimal
  import opened Markup
  import opened Captures

  /** `_prefix` (put before the next line) and `_second_prefix` (put before
      the continuation lines of the current block). */
  datatype Prefixes = Prefixes(prefix: string, second: string)

  /** The state inside the engine's `container(first, cont)`: both prefixes
      are extended for the duration of the item, and restored after it. */
  function Container(st: Prefixes, first: string, cont: string): Prefixes {
    Prefixes(st.prefix + first, st.second + cont)
  }

  /** The state every block rule leaves behind: `_prefix = _second_prefix`. */
  function Settled(st: Prefixes): Prefixes {
    Prefixes(st.second, st.second)
  }

  function Spaces(n: nat): (r: string)
    ensures |r| == n && forall i :: 0 <= i < n ==> r[i] == ' '
  {
    seq(n, _ => ' ')
  }

  // ---------------------------------------------------------------------
  // Lists

  /** First-line and continuation prefixes of item `i` of a list: `"n. "`
      with `n = start + i` and as many spaces, or the bullet and a space
      with two spaces. */
  function ItemPrefixes(ordered: bool, start: nat, bullet: char, i: nat): (string, string) {
    if ordered then
      var num := NatToString(start + i);
      (num + ". ", Spaces(|num| + 2))
    else
      ([bullet, ' '], "  ")
  }

  function ItemState(st: Prefixes, ordered: bool, start: nat, bullet: char, i: nat): Prefixes {
    Container(st, ItemPrefixes(ordered, start, bullet, i).0, ItemPrefixes(ordered, start, bullet, i).1)
  }

  /** The continuation prefix of every item is blank and exactly as wide as
      its first-line prefix; an ordered item's first-line prefix carries
      the number `start + i` followed by `". "`. */
  lemma ItemPrefixesAligned(ordered: bool, start: nat, bullet: char, i: nat)
    ensures var (first, cont) := ItemPrefixes(ordered, start, bullet, i);
            && |first| == |cont|
            && (forall k :: 0 <= k < |cont| ==> cont[k] == ' ')
            && first[|first| - 1] == ' '
            && (ordered ==> exists num :: && first == num + ". " && AllDigits(num)
                                          && 0 < |num| && (num[0] == '0' ==> |num| == 1)
                                          && DigitsValue(num) == start + i)
            && (!ordered ==> first[0] == bullet && |first| == 2)
  {
    if ordered {
      var num := NatToString(start + i);
      NatToStringRoundTrip(start + i);
      assert ItemPrefixes(ordered, start, bullet, i).0 == num + ". ";
    }
  }

  /** Two items of one ordered list never get the same number. */
  lemma ItemNumbersDistinct(start: nat, bullet: char, i: nat, j: nat)
    requires i != j
    ensures ItemPrefixes(true, start, bullet, i).0 != ItemPrefixes(true, start, bullet, j).0
  {
    var a := NatToString(start + i);
    var b := NatToString(start + j);
    if a + ". " == b + ". " {
      assert |a| == |b|;
      assert a == (a + ". ")[..|a|] == (b + ". ")[..|b|] == b;
      NatToStringInjective(start + i, start + j);
    }
  }

  /** `"".join(parts)`. */
  function Concat(parts: seq<string>): string {
    if |parts| == 0 then "" else Concat(parts[..|parts| - 1]) + parts[|parts| - 1]
  }

  /** `render_list`: renders each item, in order, inside the container its
      prefixes call for, joins the results, and leaves `_prefix` equal to
      `_second_prefix`. Rendering an item may fail (a heading of an
      unsupported level inside it); the first failure stops the whole list
      and is passed on. */
  method RenderList<T>(st: Prefixes, ordered: bool, start: nat, bullet: char, items: seq<T>,
                       render: (T, Prefixes) -> Result<string, RenderError>)
    returns (r: Result<string, RenderError>, after: Prefixes)
    ensures r.Ok? <==> forall i :: 0 <= i < |items| ==> render(items[i], ItemState(st, ordered, start, bullet, i)).Ok?
    ensures r.Ok? ==> after == Settled(st)
    ensures r.Ok? ==> r.value == Concat(seq(|items|, i requires 0 <= i < |items| && r.Ok? =>
                                   render(items[i], ItemState(st, ordered, start, bullet, i)).value))
    ensures r.Err? ==> exists i :: && 0 <= i < |items|
                                   && render(items[i], ItemState(st, ordered, start, bullet, i)) == Err(r.error)
                                   && forall k :: 0 <= k < i ==> render(items[k], ItemState(st, ordered, start, bullet, k)).Ok?
  {
    var result: seq<string> := [];
    var i := 0;
    while i < |items|
      invariant 0 <= i <= |items|
      invariant |result| == i
      invariant forall k :: 0 <= k < i ==> render(items[k], ItemState(st, ordered, start, bullet, k)).Ok?
      invariant forall k :: 0 <= k < i ==> result[k] == render(items[k], ItemState(st, ordered, start, bullet, k)).value
    {
      var item := render(items[i], ItemState(st, ordered, start, bullet, i));
      if item.Err? {
        return Err(item.error), st;
      }
      result := result + [item.value];
      i := i + 1;
    }
    r := Ok(Concat(result));
    assert result == seq(|items|, i requires 0 <= i < |items| && r.Ok? =>
                           render(items[i], ItemState(st, ordered, start, bullet, i)).value);
    after := Settled(st);
  }

  // ---------------------------------------------------------------------
  // Headings

  datatype RenderError = UnsupportedHeadingLevel(level: int)

  /** The font size standing in for a heading level: only two levels. */
  function HeadingSize(level: int): Option<nat> {
    if level == 1 then Some(24) else if level == 2 then Some(18) else None
  }

  /** `render_heading`: the current prefix, the children in a `size`
      construct, and a line break; then `_prefix = _second_prefix`. A level
      other than 1 or 2 has no size, and rendering stops with an error. */
  function RenderHeading(st: Prefixes, level: int, children: string): (r: Result<(string, Prefixes), RenderError>)
    ensures r.Err? <==> level != 1 && level != 2
    ensures r.Err? ==> r.error == UnsupportedHeadingLevel(level)
    ensures r.Ok? ==> r.value.1 == Settled(st)
    ensures r.Ok? ==> var out := r.value.0;
              && |st.prefix| < |out|
              && out[..|st.prefix|] == st.prefix
              && out[|out| - 1] == '\n'
              && Unwrap("size", out[|st.prefix|..|out| - 1])
                 == Some((children, Some(if level == 1 then "24" else "18")))
  {
    match HeadingSize(level)
    case None => Err(UnsupportedHeadingLevel(level))
    case Some(size) =>
      SizeText(level);
      var tag := Wrap("size", children, Some(NatToString(size)));
      UnwrapWrap("size", children, Some(NatToString(size)));
      LineLayout(st.prefix, tag);
      Ok((st.prefix + tag + "\n", Settled(st)))
  }

  lemma SizeText(level: int)
    requires HeadingSize(level).Some?
    ensures NatToString(HeadingSize(level).value) == if level == 1 then "24" else "18"
  {
    assert NatToString(24) == NatToString(2) + [DigitChar(4)];
    assert NatToString(18) == NatToString(1) + [DigitChar(8)];
  }

  lemma LineLayout(prefix: string, text: string)
    ensures var line := prefix + text + "\n";
            && |prefix| < |line|
            && line[..|prefix|] == prefix
            && line[|line| - 1] == '\n'
            && line[|prefix|..|line| - 1] == text
  {
  }

  // ---------------------------------------------------------------------
  // Inline constructs and quotes

  /** `render_quote`. */
  function RenderQuote(children: string): (r: string)
    ensures Unwrap("q", r) == Some((children, None))
  {
    UnwrapWrap("q", children, None);
    Wrap("q", children, None)
  }

  /** `render_emphasis`. */
  function RenderEmphasis(children: string): (r: string)
    ensures Unwrap("i", r) == Some((children, None))
  {
    UnwrapWrap("i", children, None);
    Wrap("i", children, None)
  }

  /** `render_strong_emphasis`. */
  function RenderStrong(children: string): (r: string)
    ensures Unwrap("b", r) == Some((children, None))
  {
    UnwrapWrap("b", children, None);
    Wrap("b", children, None)
  }

  /** `render_strikethrough`. */
  function RenderStrikethrough(children: string): (r: string)
    ensures Unwrap("-", r) == Some((children, None))
  {
    UnwrapWrap("-", children, None);
    Wrap("-", children, None)
  }

  /** `render_link`: the destination goes through the engine's URL
      escaping (a parameter here); a title is dropped. */
  function RenderLink(dest: string, title: Option<string>, children: string, escapeUrl: string -> string): (r: string)
    ensures Lacks(escapeUrl(dest), ']') ==> Unwrap("url", r) == Some((children, Some(escapeUrl(dest))))
    ensures |r| == |Wrap("url", children, Some(escapeUrl(dest)))|
  {
    var r := Wrap("url", children, Some(escapeUrl(dest)));
    if Lacks(escapeUrl(dest), ']') then
      UnwrapWrap("url", children, Some(escapeUrl(dest)));
      r
    else r
  }

  /** `render_line_break`: a soft break is a space, a hard one a newline. */
  function RenderLineBreak(soft: bool): (r: string)
    ensures |r| == 1
    ensures r[0] == ' ' <==> soft
    ensures r[0] == '\n' <==> !soft
  {
    if soft then " " else "\n"
  }

  // ---------------------------------------------------------------------
  // Custom BGG constructs

  /** `render_internal_link_long_form`: the children in a construct named
      after the link type, carrying the object ID. */
  function RenderInternalLink(parts: LinkParts, children: string): (r: string)
    ensures Lacks(parts.objectId, ']') ==> Unwrap(parts.linkType, r) == Some((children, Some(parts.objectId)))
  {
    var r := Wrap(parts.linkType, children, Some(parts.objectId));
    if Lacks(parts.objectId, ']') then
      UnwrapWrap(parts.linkType, children, Some(parts.objectId));
      r
    else r
  }

  /** Reads `[imageid=ID]` or `[imageid=ID size]` back; the ID runs up to
      the first space. */
  function ReadImageTag(r: string): Option<ImageInfo> {
    if |r| < 10 || r[..9] != "[imageid=" || r[|r| - 1] != ']' then None
    else
      var body := r[9..|r| - 1];
      match Find(body, " ", 0)
      case None => Some(ImageInfo(body, None))
      case Some(k) => Some(ImageInfo(body[..k], Some(body[k + 1..])))
  }

  /** `render_internal_image_long_form`: the size appears, after a space,
      only when it was captured. */
  function RenderInternalImage(info: ImageInfo): (r: string)
    ensures 0 < |info.imageId| && Lacks(info.imageId, ' ') ==> ReadImageTag(r) == Some(info)
    ensures info.size.None? ==> |r| == 10 + |info.imageId|
    ensures info.size.Some? ==> |r| == 11 + |info.imageId| + |info.size.value|
  {
    var r := "[imageid=" + info.imageId + (if info.size.Some? then " " + info.size.value else "") + "]";
    if 0 < |info.imageId| && Lacks(info.imageId, ' ') then
      ReadImageTagOfParts(info.imageId, info.size);
      r
    else r
  }

  lemma ReadImageTagOfParts(imageId: string, size: Option<string>)
    requires 0 < |imageId| && Lacks(imageId, ' ')
    ensures ReadImageTag("[imageid=" + imageId + (if size.Some? then " " + size.value else "") + "]")
            == Some(ImageInfo(imageId, size))
  {
    var r := "[imageid=" + imageId + (if size.Some? then " " + size.value else "") + "]";
    var body := r[9..|r| - 1];
    assert r[..9] == "[imageid=";
    assert body == imageId + (if size.Some? then " " + size.value else "");
    forall k | 0 <= k < |imageId| ensures !At(body, " ", k) {
      assert body[k..k + 1] == [imageId[k]];
    }
    if size.Some? {
      assert body[|imageId|..|imageId| + 1] == " ";
      assert At(body, " ", |imageId|);
      assert body[..|imageId|] == imageId;
      assert body[|imageId| + 1..] == size.value;
    } else {
      assert body == imageId;
    }
  }

  /** `render_external_image`: the captured URL, unescaped, in `img`. */
  function RenderExternalImage(url: string): (r: string)
    ensures Unwrap("img", r) == Some((url, None))
  {
    UnwrapWrap("img", url, None);
    Wrap("img", url, None)
  }

  /** Reads `[youtube=ID]` back. */
  function ReadYouTubeTag(r: string): Option<string> {
    if |r| < 10 || r[..9] != "[youtube=" || r[|r| - 1] != ']' then None
    else Some(r[9..|r| - 1])
  }

  /** `render_you_tube_long_form`. */
  function RenderYouTube(videoId: string): (r: string)
    ensures ReadYouTubeTag(r) == Some(videoId)
  {
    var r := "[youtube=" + videoId + "]";
    assert r[..9] == "[youtube=";
    assert r[9..|r| - 1] == videoId;
    r
  }

  predicate TouchesBacktick(text: string) {
    |text| > 0 && (text[0] == '`' || text[|text| - 1] == '`')
  }

  /** The two spellings of a code span: between "`` " and " ``", or in `c`. */
  predicate BacktickForm(r: string) {
    |r| >= 6 && r[..3] == "`` " && r[|r| - 3..] == " ``"
  }

  /** Reads a rendered code span back into its text. */
  function ReadCodeSpan(r: string): Option<string> {
    if BacktickForm(r) then Some(r[3..|r| - 3])
    else match Unwrap("c", r)
      case Some((text, None)) => Some(text)
      case _ => None
  }

  /** `render_code_span`: text that starts or ends with a backtick is set
      between double backticks and spaces, so that it cannot close the
      span; other text goes in `c`. Either way the text reads back. */
  function RenderCodeSpan(text: string): (r: string)
    ensures BacktickForm(r) <==> TouchesBacktick(text)
    ensures ReadCodeSpan(r) == Some(text)
  {
    if TouchesBacktick(text) then
      var r := "`` " + text + " ``";
      assert r[..3] == "`` " && r[|r| - 3..] == " ``";
      assert r[3..|r| - 3] == text;
      r
    else
      UnwrapWrap("c", text, None);
      var r := Wrap("c", text, None);
      assert r[0] == '[';
      r
  }
}
