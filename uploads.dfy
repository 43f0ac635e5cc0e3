/** One entry of the session's upload list: a file's name, the batch it was
    added to, and what the program learns from its bytes. The bytes
    themselves are not modelled; in their place stand whether the image
    opens and goes through the enhancement, and the height it has once
    scaled to the page's content width. */
module Uploads {

  datatype Upload = Upload(name: string, batch: int, decodes: bool, scaledHeight: nat)

  /** Whether the PDF path can place the image: it must open and enhance,
      and its scaled height must be positive, since resizing to a zero
      height raises inside the per-image `try`. */
  predicate Placeable(u: Upload)
  {
    u.decodes && u.scaledHeight > 0
  }
}
