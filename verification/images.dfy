/** Pixel buffers as the modelled code builds them with PIL. An image is the
    recipe that produced it — a decoded file or screen grab, a resample, a
    crop, a solid canvas, a paste or a mode conversion — so that sizes, modes
    and the origin of every pixel can be reasoned about without modelling
    pixel values that come out of a decoder or a resampling filter. */
module Images {

  datatype Mode = Rgb | Rgba | OtherMode(name: string)

  datatype Color = Color(r: nat, g: nat, b: nat, a: nat)

  /** `(0, 0, 0, 255)`, the fill of every placeholder and padding canvas. */
  const OpaqueBlack := Color(0, 0, 0, 255)

  /** What PIL puts in a crop outside the source image. */
  const TransparentBlack := Color(0, 0, 0, 0)

  datatype Image =
    | Source(id: string, w: nat, h: nat, mode: Mode)
      // a decoded file, video frame or screen grab: pixel values are opaque
    | Resized(src: Image, w: nat, h: nat)
      // `src.resize((w, h), LANCZOS)`: pixel values come from the filter
    | Cropped(src: Image, left: int, top: int, right: int, bottom: int)
      // `src.crop((left, top, right, bottom))`
    | Canvas(w: nat, h: nat, mode: Mode, fill: Color)
      // `Image.new(mode, (w, h), fill)`
    | Pasted(base: Image, layer: Image, x: int, y: int)
      // `base.paste(layer, (x, y))` without a mask
    | Converted(src: Image, mode: Mode)
      // `src.convert(mode)`

  function Width(img: Image): nat {
    match img
    case Source(_, w, _, _) => w
    case Resized(_, w, _) => w
    case Cropped(_, l, _, r, _) => if r >= l then r - l else 0
    case Canvas(w, _, _, _) => w
    case Pasted(base, _, _, _) => Width(base)
    case Converted(src, _) => Width(src)
  }

  function Height(img: Image): nat {
    match img
    case Source(_, _, h, _) => h
    case Resized(_, _, h) => h
    case Cropped(_, _, t, _, b) => if b >= t then b - t else 0
    case Canvas(_, h, _, _) => h
    case Pasted(base, _, _, _) => Height(base)
    case Converted(src, _) => Height(src)
  }

  function ModeOf(img: Image): Mode {
    match img
    case Source(_, _, _, m) => m
    case Resized(src, _, _) => ModeOf(src)
    case Cropped(src, _, _, _, _) => ModeOf(src)
    case Canvas(_, _, m, _) => m
    case Pasted(base, _, _, _) => ModeOf(base)
    case Converted(_, m) => m
  }

  /** Where the pixel at a position of an image comes from: a known solid
      colour, or position `(x, y)` of an image whose pixels are opaque to
      this model (a decoded source or the output of the resampling filter). */
  datatype Px = Solid(c: Color) | Sampled(img: Image, x: int, y: int)

  predicate Inside(img: Image, x: int, y: int) {
    0 <= x < Width(img) && 0 <= y < Height(img)
  }

  function PixelAt(img: Image, x: int, y: int): Px {
    match img
    case Source(_, _, _, _) => Sampled(img, x, y)
    case Resized(_, _, _) => Sampled(img, x, y)
    case Cropped(src, l, t, _, _) =>
      if Inside(src, x + l, y + t) then PixelAt(src, x + l, y + t) else Solid(TransparentBlack)
    case Canvas(_, _, _, fill) => Solid(fill)
    case Pasted(base, layer, px, py) =>
      if Inside(layer, x - px, y - py) then PixelAt(layer, x - px, y - py) else PixelAt(base, x, y)
    case Converted(src, _) => PixelAt(src, x, y)
  }

  /** `img.convert('RGBA')` only when the mode is not already RGBA. */
  function ToRgba(img: Image): (r: Image)
    ensures ModeOf(r) == Rgba
    ensures Width(r) == Width(img) && Height(r) == Height(img)
    ensures forall x, y :: PixelAt(r, x, y) == PixelAt(img, x, y)
  {
    if ModeOf(img) == Rgba then img else Converted(img, Rgba)
  }
}
