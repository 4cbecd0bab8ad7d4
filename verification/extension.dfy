/** `BGGExtension`: the custom inline elements registered with the
    markdown engine, in their registration order, with their priorities,
    and the choice among the elements whose pattern matches at one
    position of the text. */
module Extension {
  import opened Base
  import opened Captures
  import StrikethroughPattern
  import InternalLinkPattern
  import InternalImagePattern
  import ExternalImagePattern
  import YouTubePattern
  import Renderer
  import Markup

  datatype Element =
    | Strikethrough
    | InternalLinkLongForm
    | InternalImageLongForm
    | ExternalImage
    | YouTubeLongForm

  /** `BGGExtension.elements`, in registration order. */
  const Elements: seq<Element> :=
    [Strikethrough, InternalLinkLongForm, InternalImageLongForm, ExternalImage, YouTubeLongForm]

  /** The priority an inline element has when its class does not set one. */
  const DefaultPriority := 5

  function Priority(e: Element): int {
    match e
    case Strikethrough => 4
    case InternalLinkLongForm => 6
    case InternalImageLongForm => 7
    case ExternalImage => DefaultPriority
    case YouTubeLongForm => DefaultPriority
  }

  /** Whether the matched span is itself parsed for inline elements. */
  function ParseChildren(e: Element): bool {
    e == Strikethrough || e == InternalLinkLongForm
  }

  /** The node an element builds from its match. */
  datatype Node =
    | StrikethroughNode(body: string)
    | InternalLinkNode(linkParts: LinkParts)
    | InternalImageNode(imageInfo: ImageInfo)
    | ExternalImageNode(imageUrl: string)
    | YouTubeNode(videoId: string)

  /** The element's pattern tried at the start of `s`: characters consumed
      and the node built. */
  function MatchElement(e: Element, s: string): (r: Option<(nat, Node)>)
    ensures r.Some? ==> 0 < r.value.0 <= |s|
    ensures r.Some? ==> match e
      case Strikethrough => r.value.1.StrikethroughNode?
      case InternalLinkLongForm => r.value.1.InternalLinkNode?
      case InternalImageLongForm => r.value.1.InternalImageNode?
      case ExternalImage => r.value.1.ExternalImageNode?
      case YouTubeLongForm => r.value.1.YouTubeNode?
  {
    match e
    case Strikethrough =>
      (match StrikethroughPattern.Match(s)
       case None => None
       case Some((n, body)) => Some((n, StrikethroughNode(body))))
    case InternalLinkLongForm =>
      (match InternalLinkPattern.Match(s)
       case None => None
       case Some((n, parts)) =>
         InternalLinkPattern.MatchShape(s, n, parts);
         Some((n, InternalLinkNode(parts))))
    case InternalImageLongForm =>
      (match InternalImagePattern.Match(s)
       case None => None
       case Some((n, info)) =>
         InternalImagePattern.MatchShape(s, n, info);
         Some((n, InternalImageNode(info))))
    case ExternalImage =>
      (match ExternalImagePattern.Match(s)
       case None => None
       case Some((n, url)) => Some((n, ExternalImageNode(url))))
    case YouTubeLongForm =>
      (match YouTubePattern.Match(s)
       case None => None
       case Some((n, id)) =>
         YouTubePattern.MatchShape(s);
         Some((n, YouTubeNode(id))))
  }

  /** The index, among the candidates from `i` on, of the one that wins:
      a candidate that matches, with the highest priority, the earliest on a
      tie. Candidate `j` has priority `prio[j]` and matches when `hit[j]`. */
  function Winner(prio: seq<int>, hit: seq<bool>, i: nat): (r: Option<nat>)
    requires |prio| == |hit| && i <= |hit|
    ensures r.Some? ==> i <= r.value < |hit| && hit[r.value]
    ensures r.Some? ==> forall j :: i <= j < |hit| && hit[j] ==> prio[j] <= prio[r.value]
    ensures r.Some? ==> forall j :: i <= j < r.value && hit[j] ==> prio[j] < prio[r.value]
    ensures r.None? <==> forall j :: i <= j < |hit| ==> !hit[j]
    decreases |hit| - i
  {
    if i == |hit| then None
    else
      var rest := Winner(prio, hit, i + 1);
      if hit[i] && (rest.None? || prio[rest.value] <= prio[i]) then Some(i)
      else rest
  }

  /** The elements' priorities, in registration order. */
  function Priorities(): (r: seq<int>)
    ensures |r| == |Elements| && forall j :: 0 <= j < |r| ==> r[j] == Priority(Elements[j])
  {
    seq(|Elements|, j requires 0 <= j < |Elements| => Priority(Elements[j]))
  }

  /** Which elements match at the start of `s`, in registration order. */
  function Hits(s: string): (r: seq<bool>)
    ensures |r| == |Elements| && forall j :: 0 <= j < |r| ==> (r[j] <==> MatchElement(Elements[j], s).Some?)
  {
    seq(|Elements|, j requires 0 <= j < |Elements| => MatchElement(Elements[j], s).Some?)
  }

  /** What the engine takes at the start of `s`, if any custom element
      matches there: the element, the characters consumed and the node. */
  function Recognize(s: string): (r: Option<(Element, nat, Node)>)
    ensures r.Some? ==> r.value.0 in Elements && MatchElement(r.value.0, s) == Some((r.value.1, r.value.2))
    ensures r.Some? ==> forall e :: e in Elements && MatchElement(e, s).Some? ==> Priority(e) <= Priority(r.value.0)
    ensures r.None? <==> forall e :: e in Elements ==> MatchElement(e, s).None?
  {
    var hit := Hits(s);
    match Winner(Priorities(), hit, 0)
    case None =>
      assert forall e :: e in Elements ==> MatchElement(e, s).None? by {
        forall e | e in Elements ensures MatchElement(e, s).None? {
          var j :| 0 <= j < |Elements| && Elements[j] == e;
          assert !hit[j];
        }
      }
      None
    case Some(k) =>
      var e := Elements[k];
      assert forall e' :: e' in Elements && MatchElement(e', s).Some? ==> Priority(e') <= Priority(e) by {
        forall e' | e' in Elements && MatchElement(e', s).Some? ensures Priority(e') <= Priority(e) {
          var j :| 0 <= j < |Elements| && Elements[j] == e';
          assert hit[j];
        }
      }
      Some((e, MatchElement(e, s).value.0, MatchElement(e, s).value.1))
  }

  /** The render rule for a recognized node; `children` is the rendered
      text of the node's children, used by the elements that parse them. */
  function RenderNode(node: Node, children: string): (r: string)
    ensures node.StrikethroughNode? ==> Markup.Unwrap("-", r) == Some((children, None))
    ensures node.InternalLinkNode? && Lacks(node.linkParts.objectId, ']') ==>
              Markup.Unwrap(node.linkParts.linkType, r) == Some((children, Some(node.linkParts.objectId)))
    ensures node.InternalImageNode? && 0 < |node.imageInfo.imageId| && Lacks(node.imageInfo.imageId, ' ') ==>
              Renderer.ReadImageTag(r) == Some(node.imageInfo)
    ensures node.ExternalImageNode? ==> Markup.Unwrap("img", r) == Some((node.imageUrl, None))
    ensures node.YouTubeNode? ==> Renderer.ReadYouTubeTag(r) == Some(node.videoId)
  {
    match node
    case StrikethroughNode(_) => Renderer.RenderStrikethrough(children)
    case InternalLinkNode(parts) => Renderer.RenderInternalLink(parts, children)
    case InternalImageNode(info) => Renderer.RenderInternalImage(info)
    case ExternalImageNode(url) => Renderer.RenderExternalImage(url)
    case YouTubeNode(id) => Renderer.RenderYouTube(id)
  }

  /** The element whose match builds `node`. */
  function ElementOf(node: Node): Element {
    match node
    case StrikethroughNode(_) => Strikethrough
    case InternalLinkNode(_) => InternalLinkLongForm
    case InternalImageNode(_) => InternalImageLongForm
    case ExternalImageNode(_) => ExternalImage
    case YouTubeNode(_) => YouTubeLongForm
  }

  /** The rendered text of a node depends on its children exactly when its
      element parses them. */
  lemma ChildrenRendered(node: Node, c1: string, c2: string)
    requires node.InternalLinkNode? ==> Lacks(node.linkParts.objectId, ']')
    ensures RenderNode(node, c1) == RenderNode(node, c2) <==> c1 == c2 || !ParseChildren(ElementOf(node))
  {
  }

  /** Priorities: a BGG image before a BGG link, a BGG link before the
      engine's own elements, external images and YouTube links at the
      engine's default, strikethrough below it. The engine also uses these
      ranks between overlapping matches that start at different positions,
      such as a BGG image and the link that its `(` opens; this model
      compares only the elements that match at one position. */
  lemma PriorityOrder()
    ensures Priority(InternalImageLongForm) > Priority(InternalLinkLongForm) > DefaultPriority
    ensures Priority(ExternalImage) == Priority(YouTubeLongForm) == DefaultPriority
    ensures DefaultPriority > Priority(Strikethrough)
    ensures forall e :: e in Elements && e != InternalImageLongForm ==>
              Priority(e) < Priority(InternalImageLongForm)
  {
  }

  /** Whenever the BGG image pattern matches at a position, it outranks
      every other element that matches there, such as the external image
      pattern (see `BothImagesMatch`). */
  lemma ImageWins(s: string)
    requires InternalImagePattern.Match(s).Some?
    ensures Recognize(s).Some? && Recognize(s).value.0 == InternalImageLongForm
  {
    assert Elements[2] == InternalImageLongForm;
    var e := Recognize(s).value.0;
    assert Priority(InternalImageLongForm) <= Priority(e);
  }

  /** No BGG link starts at a `!`: the link pattern opens with `[` or `(`. */
  lemma LinkNeverAtBang(s: string)
    requires 0 < |s| && s[0] == '!'
    ensures MatchElement(InternalLinkLongForm, s).None?
  {
    NotAtByChar(s, "[", 0, 0);
    NotAtByChar(s, "(https://", 0, 0);
    NotAtByChar(s, "(http://", 0, 0);
  }

  /** `!(https://boardgamegeek.com/image/1)`. */
  predicate IsPlainImage(s: string) {
    s == InternalImagePattern.ImageText("1", ")")
  }

  /** Both image patterns match the plain BGG image; the link pattern does
      not match at its `!`. */
  lemma BothImagesMatch(s: string)
    requires IsPlainImage(s)
    ensures InternalImagePattern.Match(s) == Some((36, ImageInfo("1", None)))
    ensures ExternalImagePattern.Match(s) == Some((36, "https://boardgamegeek.com/image/1"))
    ensures InternalLinkPattern.Match(s).None?
  {
    assert |s| == 36 && s[35] == ')' && s[0] == '!';
    assert AllDigits("1");
    InternalImagePattern.ImageTextMatch("1", ")", None, 36);
    PlainImageExternal(s);
    LinkNeverAtBang(s);
  }

  lemma PlainImageExternal(s: string)
    requires IsPlainImage(s)
    ensures ExternalImagePattern.Match(s) == Some((36, "https://boardgamegeek.com/image/1"))
  {
    InternalImagePattern.HeadShape();
    var head := InternalImagePattern.ImageHead;
    assert |s| == 36 && s[35] == ')' && s[34] == '1' && s[0] == '!';
    assert s[1] == head[1] == '(' by {
      assert head[1..10][0] == head[1];
    }
    AtByChars(s, "!(", 0);
    forall j | 2 <= j < 35 ensures !IsSpace(s[j]) && s[j] != ')' {
      if j < 34 { assert s[j] == head[j]; }
    }
    ExternalFirstClose(s, 33);
    PlainImageUrl(s);
  }

  lemma PlainImageUrl(s: string)
    requires IsPlainImage(s)
    ensures s[2..35] == "https://boardgamegeek.com/image/1"
  {
    var head := InternalImagePattern.ImageHead;
    assert head == "!" + "(" + "https://boardgamegeek.com/image/";
    assert s == "!" + "(" + ("https://boardgamegeek.com/image/" + "1") + ")";
  }

  /** The external image pattern ends its URL at the first `)`. */
  lemma ExternalFirstClose(s: string, k: nat)
    requires At(s, "!(", 0) && 2 + k < |s| && s[2 + k] == ')'
    requires forall j :: 2 <= j < 2 + k ==> !IsSpace(s[j]) && s[j] != ')'
    ensures ExternalImagePattern.Match(s) == Some((k + 3, s[2..2 + k]))
  {
    assert ExternalImagePattern.ClosesAfter(s, k);
  }

  /** At the plain BGG image the engine takes the BGG image, not the
      external image that also matches there. */
  lemma PlainImageRecognized(s: string)
    requires IsPlainImage(s)
    ensures Recognize(s) == Some((InternalImageLongForm, 36, InternalImageNode(ImageInfo("1", None))))
    ensures MatchElement(ExternalImage, s).Some?
  {
    BothImagesMatch(s);
    ImageWins(s);
  }

  lemma ImageExampleRecognized(s: string)
    requires InternalImagePattern.IsSizeExample(s)
    ensures Recognize(s) == Some((InternalImageLongForm, 44, InternalImageNode(ImageInfo("123", Some("small")))))
  {
    InternalImagePattern.SizeExample(s);
    ImageWins(s);
  }

  lemma ImageExampleRendered()
    ensures RenderNode(InternalImageNode(ImageInfo("123", Some("small"))), "") == "[imageid=123 small]"
  {
    assert "[imageid=" + "123" + (" " + "small") + "]" == "[imageid=123 small]";
  }

  /** `!(https://boardgamegeek.com/image/123 small)` becomes
      `[imageid=123 small]`. */
  lemma ImageExample(s: string)
    requires InternalImagePattern.IsSizeExample(s)
    ensures Recognize(s).Some? && RenderNode(Recognize(s).value.2, "") == "[imageid=123 small]"
  {
    ImageExampleRecognized(s);
    ImageExampleRendered();
  }
}
