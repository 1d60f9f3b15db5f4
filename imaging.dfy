/**
 * The image-to-PDF converter. The image library itself is abstracted: decoding
 * reports only the colour mode of the decoded image (or that decoding raised),
 * and encoding a page is an opaque step that may raise. What is modelled is the
 * mode rule applied between the two, and the swallowing of every error.
 */
module Imaging {
  import opened Common

  /**
   * The colour modes the image library reports for a decoded image: the common
   * ones by name, and every further mode (the "I;16" family, for one) as Other.
   */
  datatype Mode =
    | Bilevel   // "1"
    | L | P | RGB | RGBA | CMYK | YCbCr | LAB | HSV | I | F
    | LA | PA | RGBX | RGBa | La
    | Other

  /** The mode rule: alpha and palette images are converted to plain RGB, all others are kept. */
  function NormalizeMode(m: Mode): (r: Mode)
    ensures r != RGBA && r != P
    ensures m == RGBA || m == P ==> r == RGB
    ensures m != RGBA && m != P ==> r == m
  {
    if m in {RGBA, P} then RGB else m
  }

  /** Applying the mode rule a second time changes nothing. */
  lemma NormalizeModeIdempotent(m: Mode)
    ensures NormalizeMode(NormalizeMode(m)) == NormalizeMode(m)
  {
  }

  /**
   * The image library as seen by the converter: `open` gives the decoded
   * image's mode or None when decoding raises; `save` gives the PDF bytes for
   * the content rendered in the given mode, or None when it raises.
   */
  datatype Codec = Codec(open: seq<byte> -> Option<Mode>, save: (seq<byte>, Mode) -> Option<seq<byte>>)

  /** An in-memory PDF buffer, positioned at its start, with the mode its page was encoded in. */
  datatype Pdf = Pdf(pageMode: Mode, bytes: seq<byte>)

  /**
   * `image_to_pdf`: decode, apply the mode rule, encode one page. Any error is
   * caught and the function then returns nothing.
   */
  function ImageToPdf(content: seq<byte>, codec: Codec): (r: Option<Pdf>)
    ensures r.None? <==>
      codec.open(content).None? || codec.save(content, NormalizeMode(codec.open(content).value)).None?
    ensures r.Some? ==> codec.open(content).Some? && r.value.pageMode == NormalizeMode(codec.open(content).value)
    ensures r.Some? ==> r.value.pageMode != RGBA && r.value.pageMode != P
    ensures r.Some? && codec.open(content).value !in {RGBA, P} ==> r.value.pageMode == codec.open(content).value
    ensures r.Some? ==> codec.save(content, r.value.pageMode) == Some(r.value.bytes)
  {
    match codec.open(content)
    case None => None
    case Some(mode) =>
      var image := NormalizeMode(mode);
      match codec.save(content, image)
      case None => None
      case Some(bytes) => Some(Pdf(image, bytes))
  }
}
