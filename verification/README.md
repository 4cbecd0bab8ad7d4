# markdown_to_BGG — a Dafny model of the converter core

`md_to_bgg.py` converts CommonMark, plus a few BoardGameGeek-specific
shorthands, into BGG forum markup. It does this by extending the `marko`
markdown engine in two ways:

- **Custom inline elements.** Five classes each declare a regular
  expression and a priority:
  - `Strikethrough`;
  - `InternalLinkLongForm`, a BGG URL in parentheses with optional
    `[link text]`;
  - `InternalImageLongForm`, `!(` + a BGG image URL, with an optional size
    word;
  - `ExternalImage`;
  - `YouTubeLongForm`.
- **Render rules.** The `BGGRenderer` mixin turns each node kind into BGG
  markup. Most rules go through one helper, `BGG_wrap`, which builds
  `[code]contents[/code]` or `[code=value]contents[/code]`.

This project models both halves as pure functions over `string`
(`seq<char>`). Its modules follow the file's structure:

| module | models |
|---|---|
| `Base` | options and results; Python's `\s` and `\d`; substring search; where a URL run stops |
| `Decimal` | `str(n)` for natural numbers, which is how list items are numbered and heading sizes are written |
| `Captures` | what a recognizer's `groupdict()` hands to the renderer |
| `Markup` | `BGG_wrap`: the literal construct `Wrap`, its inverse `Unwrap`, and `FormatAsWritten`, the f-string followed by `str.format` as the source writes it |
| `Renderer` | every `render_*` rule. The `_prefix` / `_second_prefix` state is a `Prefixes` record, passed in and returned. Children arrive already rendered. |
| `StrikethroughPattern`, `ExternalImagePattern`, `YouTubePattern` | matchers for the three simple patterns, each proved against a predicate that describes every way its regex can match, including which match the lazy quantifiers pick |
| `InternalLinkPattern`, `InternalImagePattern` | matchers for the two BGG long forms, the choice among their readings (such as the last `/type/ID` pair), and the pattern as written, kept separately (see Findings) |
| `Extension` | `BGGExtension.elements` in registration order; the priorities; which element the engine takes when several match at one position; rendering the node it builds |

## Model

| member | source | states |
|---|---|---|
| `Markup.UnwrapWrap` | md_to_bgg.py:117-128 | The construct `[code]contents[/code]`, or `[code=value]contents[/code]` when a value is given, gives back exactly the contents and the value, whatever the contents hold, provided the value has no `]`. |
| `Markup.WrapUnwrap` | md_to_bgg.py:117-128 | Conversely, any text that reads back as a construct for `code` is exactly the construct built from what it reads back to. So a rendered construct is determined by its code, contents and value. |
| `Markup.FormatAgreesWithoutBraces` | md_to_bgg.py:127-128 | When neither the code nor the contents contains `{` or `}`, the f-string followed by `.format` produces exactly the documented construct, and the `=value` part appears only when a value is given. |
| `Markup.LoneCloseRaises` | md_to_bgg.py:127-128 | A single `}` anywhere in otherwise brace-free contents makes `str.format` raise, so no construct is produced. |
| `Markup.EmptyFieldRaises` | md_to_bgg.py:127-128 | A `{}` in the contents is a second automatic field for which there is no argument, so `str.format` raises. |
| `Markup.DoubledBraceCollapses` | md_to_bgg.py:127-128 | A doubled `{{` or `}}` in the contents comes out as a single brace: the output is the construct for different contents. |
| `Markup.LoneBraceExample` | md_to_bgg.py:127-128 | Emphasis with contents `a}b` raises instead of rendering. |
| `Markup.DoubledBraceExample` | md_to_bgg.py:127-128 | Emphasis with contents `{{x` renders as `[i]{x[/i]`, which is not the construct of its contents. |
| `Decimal.NatToString` | md_to_bgg.py:149-150 | `str(num)` is a non-empty run of decimal digits, with a leading `0` only for zero. |
| `Decimal.NatToStringRoundTrip` | md_to_bgg.py:149-150 | Reading `str(n)` back as a decimal number gives `n`. |
| `Decimal.NatToStringInjective` | md_to_bgg.py:149-150 | Different item numbers have different texts. |
| `Renderer.ItemPrefixesAligned` | md_to_bgg.py:148-155 | Ordered item `i` gets the first-line prefix `num + ". "`, and a continuation prefix of spaces exactly as wide. Here `num` is a non-empty run of decimal digits, with no leading zero unless it is `0`, that reads as `start + i`. An unordered item gets the bullet and a space, and two spaces. |
| `Renderer.ItemNumbersDistinct` | md_to_bgg.py:149-150 | Two items of one ordered list never get the same first-line prefix. |
| `Renderer.RenderList` | md_to_bgg.py:141-157 | The list renders exactly when every item renders. The output is then the items, in document order, each rendered inside the container its prefixes call for, and concatenated, and afterwards `_prefix` equals `_second_prefix`. Otherwise the error is that of the first item that fails. |
| `Renderer.RenderHeading` | md_to_bgg.py:162-176 | Level 1 gives `[size=24]` and level 2 gives `[size=18]`. The output is the current prefix, the children in that `size` construct, then `\n`, and afterwards `_prefix == _second_prefix`. Any other level is an error, with no fallback. |
| `Renderer.RenderQuote` | md_to_bgg.py:159-160 | The output reads back as a `q` construct holding the children, with no value. By `Markup.WrapUnwrap` it is therefore exactly `[q]children[/q]`. |
| `Renderer.RenderEmphasis` | md_to_bgg.py:178-179 | The output reads back as an `i` construct holding the children, with no value. |
| `Renderer.RenderStrong` | md_to_bgg.py:181-182 | The output reads back as a `b` construct holding the children, with no value. |
| `Renderer.RenderStrikethrough` | md_to_bgg.py:184-185 | The output reads back as a `-` construct holding the children, with no value. |
| `Renderer.RenderLink` | md_to_bgg.py:187-195 | The output reads back as a `url` construct holding the children, whose value is the escaped destination. The title plays no part. |
| `Renderer.RenderLineBreak` | md_to_bgg.py:197-198 | A soft break is a single space and a hard break a single newline; each only in its own case. |
| `Renderer.RenderInternalLink` | md_to_bgg.py:201-214 | The output reads back as a construct named after the link type, holding the children, whose value is the object ID. |
| `Renderer.RenderInternalImage` | md_to_bgg.py:216-229 | The output reads back as `[imageid=ID]`, or as `[imageid=ID size]` exactly when a size was captured. Its length is that of the pieces. |
| `Renderer.RenderExternalImage` | md_to_bgg.py:231-237 | The output reads back as an `img` construct holding the captured URL unchanged, with no value. |
| `Renderer.RenderYouTube` | md_to_bgg.py:239-245 | The output reads back as `[youtube=ID]` for the video ID. |
| `Renderer.RenderCodeSpan` | md_to_bgg.py:247-251 | The double-backtick form is used exactly when the text starts or ends with a backtick; otherwise the `c` construct is used. Either way, the text reads back. |
| `StrikethroughPattern.Match` | md_to_bgg.py:26 | A match exists exactly when `~~`, a non-empty body with no line break, and `~~` start the text. The match is the one with the shortest body, and the body is captured. |
| `StrikethroughPattern.MatchShape` | md_to_bgg.py:26 | The consumed text is `~~` + body + `~~`. The body is non-empty and has no line break. No `~~` starts inside the body after its first character, so the first closing `~~` ends the match. |
| `StrikethroughPattern.Example` | md_to_bgg.py:26 | `~~gone~~ and ~~back~~` matches `~~gone~~` only. |
| `StrikethroughPattern.LeadingTildesExample` | md_to_bgg.py:26 | `~~~~x~~` matches whole with the body `~~x`: the body may start with `~~`. |
| `ExternalImagePattern.Match` | md_to_bgg.py:92 | A match exists exactly when `!(`, a run with no whitespace, and `)` start the text. The shortest such run is the captured URL. |
| `ExternalImagePattern.MatchShape` | md_to_bgg.py:92 | The match is `!(` + URL + `)`, where the URL holds neither whitespace nor `)`: it ends at the first `)`. |
| `YouTubePattern.LocateIsLeast` | md_to_bgg.py:106-111 | The search finds a reading whenever the text has one. Its `youtu`, `/watch?v=` and `)` are each the earliest of any reading. |
| `YouTubePattern.MatchSpec` | md_to_bgg.py:106-111 | A match exists exactly when the text reads as `(http[s]://`, a run with no whitespace containing `youtu` and then `/watch?v=`, a non-empty ID, and `)`. The match reports the least reading, the one the lazy quantifiers take. |
| `YouTubePattern.MatchShape` | md_to_bgg.py:106-111 | The video ID is non-empty and has no whitespace, and the match ends with `)`. |
| `YouTubePattern.ReadingIsLeast` | md_to_bgg.py:106-111 | A reading with no earlier `youtu`, `/watch?v=` or `)` that could stand in for its own is the least reading. |
| `YouTubePattern.LeastIsMatch` | md_to_bgg.py:106-111 | The least reading is the one the matcher reports. |
| `YouTubePattern.Example` | md_to_bgg.py:102-111 | `(https://www.youtube.com/watch?v=x-J2KzQb5lI)` gives the ID `x-J2KzQb5lI`. |
| `InternalLinkPattern.TextEnd` | md_to_bgg.py:19-20 | The optional link text runs from a leading `[` to the first `](`, with no line break in between. If there is no such `](`, there is no text. |
| `InternalLinkPattern.MatchUrl` | md_to_bgg.py:46-50 | The URL part matches exactly when the URL has a reading. A reading is a BGG host, then `/type/` and a digit, all before the URL's closing `)`. The reading taken is the picked one: the greatest `p`, and for it the least `q`. |
| `InternalLinkPattern.Match` | md_to_bgg.py:41-50 | A link is found exactly when the URL, opened where it may open, has a reading. What is found is the picked reading: it consumes up to the `)` and captures the text, the type and the ID digits. |
| `InternalLinkPattern.MatchShape` | md_to_bgg.py:41-50 | The ID is non-empty and all digits. The type is non-empty and has no whitespace. The text sits between `[` and the first `](`, on one line. The match ends with the URL's `)`, and the URL holds no other `)`. |
| `InternalLinkPattern.ReadingIsPicked` | md_to_bgg.py:43-50 | A reading followed by no further `/`-digit pair, and whose type has no inner `/`, is the picked one. |
| `InternalLinkPattern.PickedUnique` | md_to_bgg.py:43-50 | At most one reading is picked: the last `/type/ID` pair is well defined. |
| `InternalLinkPattern.PickedGivesMatch` | md_to_bgg.py:19-50 | With or without link text, the picked reading of the URL, opened where it may open, is the link the matcher reports. The link consumes up to the URL's `)` and captures the text, the reading's type and its ID. |
| `InternalLinkPattern.LinkTextMatch` | md_to_bgg.py:19-50 | `[t](https://boardgamegeek.com/ty/id)` is found and consumed whole, with text `t`, type `ty` and ID `id`. This holds for any text without `]` or a line break, any type of visible characters without `/` or `)`, and any non-empty run of digits as the ID. |
| `InternalLinkPattern.LastPairExample` | md_to_bgg.py:43-50 | `(https://boardgamegeek.com/thread/555/article/777#777)` links to the article `777`, not to the thread. |
| `InternalLinkPattern.AsWrittenSwallows` | md_to_bgg.py:41-50 | The pattern as written reads `[a](https://x.com) and [b](https://boardgamegeek.com/thread/12)` as one link. Its text is `a`, and its URL runs over the first link's `)`. |
| `InternalLinkPattern.IntendedSkipsSwallow` | md_to_bgg.py:41-50 | On that text, the matcher finds no link at the start, and it does find the BGG link that follows. |
| `InternalLinkPattern.AsWrittenTextSwallows` | md_to_bgg.py:19-20 | The pattern as written reads `[a](x) [b](https://boardgamegeek.com/thread/1)` as one link. Its text `a](x) [b` runs past the first `](`. |
| `InternalLinkPattern.AsWrittenTypeSwallows` | md_to_bgg.py:46-50 | The pattern as written reads `[x](https://boardgamegeek.com/a)[y](https://boardgamegeek.com/thread/1)` as one link. Its type runs from `a` over the first link's `)` up to the slash before the next link's ID `1`. |
| `InternalLinkPattern.IntendedTypeStops` | md_to_bgg.py:46-50 | On that text, the matcher ends the URL at its first `)`, where it has no `/type/ID` pair, so it finds no link at the start. It does find the BGG link that follows. |
| `InternalLinkPattern.IntendedTextStops` | md_to_bgg.py:19-20 | On that text, the matcher ends the link text at the first `](`. The URL there is not a web address, so it finds no link at the start, and it does find the BGG link that follows. |
| `InternalImagePattern.LocateIsFirst` | md_to_bgg.py:69-72 | The search finds a reading (a host, then `/image/` and a digit, inside the URL) whenever there is one, and its `/image/` is the first of any reading. |
| `InternalImagePattern.TailSpec` | md_to_bgg.py:72-74 | After the URL comes either `)` alone, or spaces, a non-empty size word with neither `)` nor whitespace, and `)`. Nothing else closes the image. |
| `InternalImagePattern.MatchNone` | md_to_bgg.py:69-74 | No image is found exactly when the URL has no reading, or when what follows the URL does not close the image. |
| `InternalImagePattern.MatchSome` | md_to_bgg.py:69-74 | A found image reports the reading with the first `/image/`: the digit run after it as the ID, and the size and end that follow the URL. |
| `InternalImagePattern.MatchShape` | md_to_bgg.py:69-74 | The ID is non-empty and all digits. A size, when present, is non-empty and holds neither `)` nor whitespace. The match ends with its only `)`. |
| `InternalImagePattern.ImageTextMatch` | md_to_bgg.py:69-74 | `!(https://boardgamegeek.com/image/` + ID + tail, for any non-empty digit ID and any tail opening with `)` or a space, is found with that ID and with the size and end that the tail gives. |
| `InternalImagePattern.SizeExample` | md_to_bgg.py:64-74 | `!(https://boardgamegeek.com/image/123 small)` gives the ID `123` and the size `small`. |
| `InternalImagePattern.AsWrittenSwallows` | md_to_bgg.py:69-74 | The pattern as written reads `!(https://x.com/a.png)!(https://boardgamegeek.com/image/1)` as one BGG image. Its URL runs over the external image's `)`. |
| `InternalImagePattern.IntendedSkipsSwallow` | md_to_bgg.py:69-74 | On that text, the matcher finds no BGG image at the start, and it does find the BGG image that follows. |
| `InternalImagePattern.AsWrittenSizeCrossesClose` | md_to_bgg.py:73-74 | The pattern as written has two readings of `!(https://boardgamegeek.com/image/1 small))` with the same host, marker, ID and spaces: the size may end at the first `)` or run over it to the second, and no reading ends later. The greedy `\S+` takes the longest, so the size is `small)` and both `)` are consumed. |
| `InternalImagePattern.IntendedSizeStopsAtClose` | md_to_bgg.py:73-74 | On that text, the matcher ends the size word at the first `)`: the size is `small`, and the second `)` is left over. |
| `InternalImagePattern.AsWrittenSpacedHost` | md_to_bgg.py:71 | The unescaped `.` of the host matches a space, so the pattern as written reads `!(https://boardgamegeek com/image/1)` as a BGG image with ID `1`. |
| `InternalImagePattern.IntendedSpacedHostNone` | md_to_bgg.py:71 | The corrected matcher finds no BGG image in that text, because its URL stops at the space, before any `/image/`. |
| `Extension.MatchElement` | md_to_bgg.py:260-262 | Each registered element, when it matches, consumes a non-empty prefix and builds its own kind of node. |
| `Extension.Recognize` | md_to_bgg.py:260-262 | The element the engine takes at a position is one that matches there, with the highest priority. Nothing is taken exactly when no element matches. |
| `Extension.RenderNode` | md_to_bgg.py:200-245 | Each node renders through its own rule, and its captures read back from the output. |
| `Extension.PriorityOrder` | md_to_bgg.py:22-92 | Internal image (7) ranks above internal link (6), which ranks above the default (5). External image and YouTube inherit the default, and strikethrough (4) ranks below it. |
| `Extension.ImageWins` | md_to_bgg.py:76-79 | Whenever the BGG image pattern matches at a position, the engine takes the image there, over every other element that matches at the same position, such as the external image pattern. |
| `Extension.LinkNeverAtBang` | md_to_bgg.py:19-50 | The link pattern never matches at a `!`, so at the position of an image it never competes. |
| `Extension.BothImagesMatch` | md_to_bgg.py:69-92 | `!(https://boardgamegeek.com/image/1)` matches both image patterns whole, with ID `1` and with that URL, and does not match the link pattern. |
| `Extension.PlainImageRecognized` | md_to_bgg.py:76-79 | On that text, the engine takes the BGG image, although the external image pattern matches too. |
| `Extension.ChildrenRendered` | md_to_bgg.py:22-52 | A node's output depends on its children's rendered text exactly when its element sets `parse_children`, as strikethrough and the BGG link do. |
| `Extension.ImageExample` | md_to_bgg.py:60-82 | `!(https://boardgamegeek.com/image/123 small)` is taken as a BGG image and renders as `[imageid=123 small]`. |

## Left out

- The command line and file I/O (`argparse`, reading the input, printing the result) are plumbing, not conversion.
- `__version__` is metadata.
- Short forms such as `(type=ID)` are not handled by this file.
- The `marko` engine itself is not part of this model. That covers block and inline parsing of CommonMark, the `render` / `render_children` traversal, and the choice between overlapping matches at different positions.
  - Render rules take their children's rendered text as a parameter.
  - `RenderList` takes the per-item rendering as a function, which may fail.
  - `container` is modelled as extending both prefixes for the duration of an item.
  - The choice among elements is modelled only among those that match at one position (`Extension.Recognize`).
- `marko.HTMLRenderer.escape_url` is a parameter of `RenderLink`.
- `\d` is modelled as the ASCII digits only. Python's `\d` on `str` also accepts other Unicode decimal digits.
- The long-form link and image matchers are the corrected reading described under Findings, not full regex backtracking.
  - The pattern as written is kept only as the predicates `AsWrittenReads` and the examples that show where it parts from that reading.
  - The unescaped `.` in `boardgamegeek.com` of the image pattern stands for any character but a line break in `AsWrittenReads`. In the corrected reading the host lies inside the URL, so there the `.` is any character but whitespace and `)` (see Findings).
- `InternalImagePattern.Match` still accepts any such character in place of the `.`, as in `boardgamegeekXcom`, because only the space and `)` cases part from the pattern as written.
- `InternalLinkPattern.TextEnd` ends the link text at the first `](`. The lazy `.*?` as written runs on to a later `](` when no URL reads after the first one (see Findings).
- `InternalLinkPattern.Match` describes that corrected text end and the corrected URL end, not the as-written pattern. Under the corrected URL end the type cannot cross `)`, unlike the `\S+?` as written (see Findings).
- `InternalLinkPattern.MatchShape` states that the text stops at the first `](`, which holds for the corrected reading only.
- `InternalImagePattern.TailSpec` states a size word with neither `)` nor whitespace. The greedy `\S+` as written may hold `)` (see Findings).
- `InternalImagePattern.MatchNone` describes the corrected size word and URL end, not the as-written pattern.
- `InternalImagePattern.MatchSome` reports the size of the corrected reading.
- `InternalImagePattern.MatchShape` states that the match ends with its only `)`, which holds for the corrected reading only.
- `Extension.ImageWins` compares only elements that match at one position. The engine also ranks overlapping matches that start at different positions, such as a BGG image and a BGG link opened by its `(`; that choice is not modelled.
- `Markup.FormatAsWritten` covers only texts whose replacement fields are the automatic `{}`. Contents with named or numbered fields (`{0}`, `{x}`) or format specs are outside it.
- The renderer uses the literal construct `Markup.Wrap`, not the as-written `str.format` construction (see Findings).
- `Renderer.RenderLink`: the read-back is stated only when the escaped URL holds no `]`. Otherwise only the output's length is stated, because `[url=a]b]...` cannot be read back unambiguously.
- `Renderer.RenderInternalLink`: the read-back is stated only when the object ID holds no `]`. A matched ID is all digits, so this always holds for recognized links.
- `Renderer.RenderInternalImage`: the read-back is stated only when the ID is non-empty and holds no space. A matched ID is a non-empty run of digits, so this always holds for recognized images.
- `Extension.RenderNode`: the read-back for link and image nodes carries the same two conditions as the two rules above.
- `Extension.ChildrenRendered`: for a link node it is stated only when the object ID holds no `]`, for the reason given for `Renderer.RenderInternalLink`.

## Findings

| source | as written | input that shows it | evidently intended | confidence | as-written member | corrected member |
|---|---|---|---|---|---|---|
| md_to_bgg.py:127-128 | `BGG_wrap` builds an f-string and then calls `.format` on it, so braces in the contents are read as format syntax | emphasis `*a}b*`: contents `a}b` make `str.format` raise; `*{{x*` renders as `[i]{x[/i]` | `[code]contents[/code]` with the contents taken literally, as the docstring says | high, not executed | `Markup.LoneBraceExample` | `Markup.UnwrapWrap` |
| md_to_bgg.py:46 | the `.*?` before `boardgamegeek\.com` may cross `)` and spaces, so the URL of an ordinary link runs on into a later BGG link on the same line | `[a](https://x.com) and [b](https://boardgamegeek.com/thread/12)` is read as one BGG link with text `a` | the URL stops at its first `)` or whitespace ("without bleeding onto the next link on the same line", md_to_bgg.py:43) | high, not executed | `InternalLinkPattern.AsWrittenSwallows` | `InternalLinkPattern.IntendedSkipsSwallow` |
| md_to_bgg.py:71-72 | the `\S*?` runs of the image URL may cross `)`, so an external image followed without a space by a BGG image becomes one BGG image | `!(https://x.com/a.png)!(https://boardgamegeek.com/image/1)` is read as one BGG image with ID `1` | the URL stops at its first `)` or whitespace | medium, not executed | `InternalImagePattern.AsWrittenSwallows` | `InternalImagePattern.IntendedSkipsSwallow` |
| md_to_bgg.py:71 | the `.` of `boardgamegeek.com` is not escaped, so it matches a space, which the surrounding `\S*?` runs cannot | `!(https://boardgamegeek com/image/1)` is read as a BGG image with ID `1` | a literal `.`, as the link pattern escapes it at md_to_bgg.py:46; at least no whitespace inside the URL | medium, not executed | `InternalImagePattern.AsWrittenSpacedHost` | `InternalImagePattern.IntendedSpacedHostNone` |
| md_to_bgg.py:73 | the size word is a greedy `\S+`, which may hold `)`, so it runs over the image's closing `)` to the last `)` it can reach | `!(https://boardgamegeek.com/image/1 small))` gives the size `small)` and consumes both `)` | the size word stops at the `)` that closes the image | medium, not executed | `InternalImagePattern.AsWrittenSizeCrossesClose` | `InternalImagePattern.IntendedSizeStopsAtClose` |
| md_to_bgg.py:20 | the lazy `.*?` of the link text backtracks past the first `](` when no URL reads after it, so the text swallows a broken link and the `[` of the next one | `[a](x) [b](https://boardgamegeek.com/thread/1)` is read as one BGG link with text `a](x) [b` | the text ends at the first `](` | medium, not executed | `InternalLinkPattern.AsWrittenTextSwallows` | `InternalLinkPattern.IntendedTextStops` |
| md_to_bgg.py:49 | the lazy `\S+?` of the link type may cross `)`, so a BGG link with no `/type/ID` pair runs on into the next link on the same line and takes that link's ID | `[x](https://boardgamegeek.com/a)[y](https://boardgamegeek.com/thread/1)` is read as one BGG link with type `a)[y](https://boardgamegeek.com/thread` and ID `1` | the type and ID lie inside the URL, which stops at its first `)` or whitespace | medium, not executed | `InternalLinkPattern.AsWrittenTypeSwallows` | `InternalLinkPattern.IntendedTypeStops` |
