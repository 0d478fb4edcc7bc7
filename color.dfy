/**
 * The four cell colours of the engine and their RGB encoding in the pixel
 * buffer (`Color` and `Rgb` in src/world.rs). Decoding a triple that is not
 * one of the four is a panic in the source; here it is `None`.
 */
module Colors {

  import opened Int32
  import opened Wrappers

  datatype Color = Background | Snake | Food | Fail

  datatype Rgb = Rgb(r: Byte, g: Byte, b: Byte)

  /**
   * Encoding: every colour is a pure primary or black, each channel off or
   * full, at most one channel lit, and only Background is black.
   */
  function ToRgb(color: Color): (rgb: Rgb)
    ensures rgb.r in {0, 255} && rgb.g in {0, 255} && rgb.b in {0, 255}
    ensures rgb.r + rgb.g + rgb.b <= 255
    ensures rgb == Rgb(0, 0, 0) <==> color == Background
  {
    match color
    case Background => Rgb(0, 0, 0)
    case Snake => Rgb(0, 255, 0)
    case Food => Rgb(0, 0, 255)
    case Fail => Rgb(255, 0, 0)
  }

  /** Decoding: the colour whose triple this is, or `None` (the source's panic). */
  function FromRgb(rgb: Rgb): (color: Option<Color>)
    ensures color.Some? ==> ToRgb(color.value) == rgb
    ensures color.None? <==> forall c: Color :: ToRgb(c) != rgb
  {
    match rgb
    case Rgb(0, 0, 0) => Some(Background)
    case Rgb(0, 255, 0) => Some(Snake)
    case Rgb(0, 0, 255) => Some(Food)
    case Rgb(255, 0, 0) => Some(Fail)
    case _ => None
  }

  lemma DecodeEncode(color: Color)
    ensures FromRgb(ToRgb(color)) == Some(color)
  {
    match color
    case Background =>
    case Snake =>
    case Food =>
    case Fail =>
  }

  lemma EncodeInjective(c: Color, d: Color)
    ensures ToRgb(c) == ToRgb(d) <==> c == d
  {
  }
}
