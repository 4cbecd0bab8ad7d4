/** What the custom recognizers capture and hand to the renderer: the
    `groupdict()` of a successful match, with Python's `None` for an
    optional group that did not take part written as `None`. */
module Captures {
  import opened Base

  /** `link_parts` of an internal BGG link: optional `link_text`, the
      object kind `link_type` (thread, article, boardgame, ...) and the
      numeric `object_ID`. */
  datatype LinkParts = LinkParts(linkText: Option<string>, linkType: string, objectId: string)

  /** `image_info` of an internal BGG image: `image_ID` and an optional
      `size` word. */
  datatype ImageInfo = ImageInfo(imageId: string, size: Option<string>)
}
