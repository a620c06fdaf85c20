/** The RGB-565 pixel packing of the display encoder: each 8-bit RGB pixel
    becomes a 16-bit word with five bits of red, six of green and five of
    blue, sent high byte first. The words are computed the way NumPy does,
    in `uint16` after widening from `uint8`; the lemmas read them back as
    integers. */
module Rgb565 {
  import opened Wrappers

  /** A channel value or an output byte, `np.uint8`. */
  type Byte = x: int | 0 <= x < 256

  datatype Pixel = Pixel(r: Byte, g: Byte, b: Byte)

  /** A PIL RGB image: `height` rows of `width` pixels each. */
  datatype RgbImage = RgbImage(width: nat, height: nat, rows: seq<seq<Pixel>>)

  predicate WellFormed(img: RgbImage) {
    |img.rows| == img.height && forall y :: 0 <= y < img.height ==> |img.rows[y]| == img.width
  }

  /** `Image.new("RGB", (width, height), color)`: every pixel the same. */
  function Solid(width: nat, height: nat, color: Pixel): (img: RgbImage)
    ensures img.width == width && img.height == height && WellFormed(img)
    ensures forall y, x :: 0 <= y < height && 0 <= x < width ==> img.rows[y][x] == color
  {
    RgbImage(width, height, seq(height, y => seq(width, x => color)))
  }

  // ---------------------------------------------------------------------
  // One pixel
  // ---------------------------------------------------------------------

  /** The `uint8` bit pattern that holds `x`, built by counting up. */
  function Bits(x: Byte): (y: bv8)
    ensures y as int == x
  {
    if x == 0 then 0 else Bits(x - 1) + 1
  }

  /** `arr[..., c].astype(np.uint16)` for an element of the `uint8` array. */
  function Widen(x: Byte): bv16 {
    Bits(x) as bv16
  }

  /** `((r >> 3) << 11) | ((g >> 2) << 5) | (b >> 3)` in `uint16`. */
  function Word(p: Pixel): bv16 {
    ((Widen(p.r) >> 3) << 11) | ((Widen(p.g) >> 2) << 5) | (Widen(p.b) >> 3)
  }

  /** `(v >> 8).astype(np.uint8)`. */
  function Hi(p: Pixel): Byte {
    Split16(Word(p));
    (Word(p) >> 8) as int
  }

  /** `(v & 0xFF).astype(np.uint8)`. */
  function Lo(p: Pixel): Byte {
    Split16(Word(p));
    (Word(p) & 0xFF) as int
  }

  /** A 16-bit word is its high byte times 256 plus its low byte. */
  lemma Split16(w: bv16)
    ensures (w >> 8) as int * 256 + (w & 0xFF) as int == w as int
    ensures (w >> 8) as int < 256 && (w & 0xFF) as int < 256
  {
    var h, l := w >> 8, w & 0xFF;
    assert h * 256 + l == w && h < 256 && l < 256;
    SumOfTwo(h, l);
  }

  lemma SumOfTwo(h: bv16, l: bv16)
    requires h < 256 && l < 256
    ensures (h * 256 + l) as int == h as int * 256 + l as int
    ensures h as int < 256 && l as int < 256
  {
  }

  /** The two bytes sent for a pixel spell out its word, high byte first. */
  lemma HiLo(p: Pixel)
    ensures Hi(p) * 256 + Lo(p) == Word(p) as int
  {
    Split16(Word(p));
  }

  lemma WidenedByte(y: bv8)
    ensures (y as bv16) as int == y as int && (y as bv16) < 256
  {
  }

  /** Widening keeps the value and stays below 256. */
  lemma WidenValue(x: Byte)
    ensures Widen(x) as int == x && Widen(x) < 256
  {
    WidenedByte(Bits(x));
  }

  lemma ShiftRight3(w: bv16)
    requires w < 256
    ensures (w >> 3) as int == w as int / 8
  {
  }

  lemma ShiftRight2(w: bv16)
    requires w < 256
    ensures (w >> 2) as int == w as int / 4
  {
  }

  /** The three fields of the word are the shifted channels: nothing is
      lost or mixed by the `uint16` shifts. */
  lemma Fields(p: Pixel)
    ensures Word(p) >> 11 == Widen(p.r) >> 3
    ensures (Word(p) >> 5) & 0x3F == Widen(p.g) >> 2
    ensures Word(p) & 0x1F == Widen(p.b) >> 3
  {
    WidenValue(p.r);
    WidenValue(p.g);
    WidenValue(p.b);
  }

  lemma RedField(p: Pixel)
    ensures (Word(p) >> 11) as int == p.r / 8
  {
    Fields(p);
    WidenValue(p.r);
    ShiftRight3(Widen(p.r));
  }

  lemma GreenField(p: Pixel)
    ensures ((Word(p) >> 5) & 0x3F) as int == p.g / 4
  {
    Fields(p);
    WidenValue(p.g);
    ShiftRight2(Widen(p.g));
  }

  lemma BlueField(p: Pixel)
    ensures (Word(p) & 0x1F) as int == p.b / 8
  {
    Fields(p);
    WidenValue(p.b);
    ShiftRight3(Widen(p.b));
  }

  /** Any 16-bit word is its 5-6-5 fields put back together. */
  lemma Decompose(w: bv16)
    ensures w as int == (w >> 11) as int * 2048 + ((w >> 5) & 0x3F) as int * 32 + (w & 0x1F) as int
  {
    var a, b, c := w >> 11, (w >> 5) & 0x3F, w & 0x1F;
    assert w == a * 2048 + b * 32 + c && a < 32 && b < 64 && c < 32;
    SumOfThree(a, b, c);
  }

  lemma SumOfThree(a: bv16, b: bv16, c: bv16)
    requires a < 32 && b < 64 && c < 32
    ensures (a * 2048 + b * 32 + c) as int == a as int * 2048 + b as int * 32 + c as int
  {
  }

  /** The `uint16` computation gives exactly what unbounded integers give:
      no shift overflows, so the word does not depend on NumPy's overflow
      error mode, and it is always below 2^16. */
  lemma WordValue(p: Pixel)
    ensures Word(p) as int == (p.r / 8) * 2048 + (p.g / 4) * 32 + p.b / 8
    ensures Word(p) as int < 0x10000
  {
    Decompose(Word(p));
    RedField(p);
    GreenField(p);
    BlueField(p);
  }

  /** Reading a pixel back from its two bytes: the top five bits of red, six
      of green and five of blue. */
  function Unpack(hi: Byte, lo: Byte): (c: (int, int, int))
    ensures 0 <= c.0 < 32 && 0 <= c.1 < 64 && 0 <= c.2 < 32
  {
    var w := hi * 256 + lo;
    (w / 2048, (w / 32) % 64, w % 32)
  }

  /** What `Unpack` reads from a pixel's bytes is the pixel with its low bits
      dropped. */
  lemma UnpackPixel(p: Pixel)
    ensures Unpack(Hi(p), Lo(p)) == (p.r / 8, p.g / 4, p.b / 8)
  {
    var r, g, b := p.r / 8, p.g / 4, p.b / 8;
    assert Hi(p) * 256 + Lo(p) == r * 2048 + g * 32 + b by {
      HiLo(p);
      WordValue(p);
    }
    Fields565(r, g, b);
  }

  /** Whole-number arithmetic behind `Unpack`. */
  lemma Fields565(r: int, g: int, b: int)
    requires 0 <= r < 32 && 0 <= g < 64 && 0 <= b < 32
    ensures var w := r * 2048 + g * 32 + b; w / 2048 == r && (w / 32) % 64 == g && w % 32 == b
  {
    var w := r * 2048 + g * 32 + b;
    assert w / 32 == r * 64 + g;
  }

  /** Channels that already sit on the 5-6-5 grid come back unchanged. */
  lemma UnpackExact(p: Pixel)
    requires p.r % 8 == 0 && p.g % 4 == 0 && p.b % 8 == 0
    ensures var c := Unpack(Hi(p), Lo(p)); c.0 * 8 == p.r && c.1 * 4 == p.g && c.2 * 8 == p.b
  {
    UnpackPixel(p);
  }

  // ---------------------------------------------------------------------
  // Whole images
  // ---------------------------------------------------------------------

  /** One row: each pixel's high byte, then its low byte. */
  function EncodeRow(row: seq<Pixel>): (r: seq<Byte>)
    ensures |r| == 2 * |row|
  {
    seq(2 * |row|, i requires 0 <= i < 2 * |row| => if i % 2 == 0 then Hi(row[i / 2]) else Lo(row[i / 2]))
  }

  /** `tobytes` of the interleaved array: the rows one after another. */
  function EncodeRows(rows: seq<seq<Pixel>>): (r: seq<Byte>)
  {
    if |rows| == 0 then [] else EncodeRow(rows[0]) + EncodeRows(rows[1..])
  }

  /** `width` by `height` pixels become `2 * width * height` bytes. */
  lemma {:induction false} EncodedLength(rows: seq<seq<Pixel>>, width: nat)
    requires forall y :: 0 <= y < |rows| ==> |rows[y]| == width
    ensures |EncodeRows(rows)| == 2 * width * |rows|
  {
    if |rows| > 0 {
      EncodedLength(rows[1..], width);
      assert 2 * width * |rows| == 2 * width + 2 * width * (|rows| - 1);
    }
  }

  lemma RowAt(row: seq<Pixel>, x: nat)
    requires x < |row|
    ensures EncodeRow(row)[2 * x] == Hi(row[x]) && EncodeRow(row)[2 * x + 1] == Lo(row[x])
  {
  }

  lemma ConcatAt(a: seq<Byte>, b: seq<Byte>, j: nat)
    requires j < |b|
    ensures (a + b)[|a| + j] == b[j]
  {
  }

  /** The number of pixels in the first `y` rows, counted row by row. */
  function RowStart(width: nat, y: nat): nat {
    if y == 0 then 0 else width + RowStart(width, y - 1)
  }

  lemma {:induction false} RowStartIs(width: nat, y: nat)
    ensures RowStart(width, y) == y * width
  {
    if y > 0 {
      RowStartIs(width, y - 1);
    }
  }

  /** Row `y` of the encoding starts after the bytes of the rows before it,
      two per pixel. */
  lemma {:induction false} EncodedAtRow(rows: seq<seq<Pixel>>, width: nat, y: nat, j: nat)
    requires forall k :: 0 <= k < |rows| ==> |rows[k]| == width
    requires y < |rows| && j < 2 * width
    ensures 2 * RowStart(width, y) + j < |EncodeRows(rows)|
    ensures EncodeRows(rows)[2 * RowStart(width, y) + j] == EncodeRow(rows[y])[j]
  {
    var first := EncodeRow(rows[0]);
    var rest := EncodeRows(rows[1..]);
    assert EncodeRows(rows) == first + rest;
    if y > 0 {
      var i := 2 * RowStart(width, y - 1) + j;
      assert i < |rest| && rest[i] == EncodeRow(rows[y])[j] by {
        EncodedAtRow(rows[1..], width, y - 1, j);
        assert rows[1..][y - 1] == rows[y];
      }
      ConcatAt(first, rest, i);
    }
  }

  /** The pixel at row `y`, column `x` occupies bytes `2 * (y * width + x)`
      (high) and the one after it (low). */
  lemma EncodedAt(rows: seq<seq<Pixel>>, width: nat, y: nat, x: nat)
    requires forall k :: 0 <= k < |rows| ==> |rows[k]| == width
    requires y < |rows| && x < width
    ensures 2 * (y * width + x) + 1 < |EncodeRows(rows)|
    ensures EncodeRows(rows)[2 * (y * width + x)] == Hi(rows[y][x])
    ensures EncodeRows(rows)[2 * (y * width + x) + 1] == Lo(rows[y][x])
  {
    EncodedAtRow(rows, width, y, 2 * x);
    EncodedAtRow(rows, width, y, 2 * x + 1);
    RowAt(rows[y], x);
    RowStartIs(width, y);
  }

  /** Reading words back from a byte string, two bytes at a time, high byte
      first. */
  function Words(bytes: seq<Byte>): (w: seq<int>)
    ensures |w| == |bytes| / 2
    ensures forall k :: 0 <= k < |w| ==> 0 <= w[k] < 0x10000
  {
    var w: seq<int> := seq(|bytes| / 2, k requires 0 <= k < |bytes| / 2 => bytes[2 * k] as int * 256 + bytes[2 * k + 1] as int);
    w
  }

  /** Decoding an encoded image gives back each pixel's word in row-major
      order. */
  lemma WordsRoundTrip(rows: seq<seq<Pixel>>, width: nat, y: nat, x: nat)
    requires forall k :: 0 <= k < |rows| ==> |rows[k]| == width
    requires y < |rows| && x < width
    ensures y * width + x < |Words(EncodeRows(rows))|
    ensures Words(EncodeRows(rows))[y * width + x] == Word(rows[y][x]) as int
  {
    var bytes := EncodeRows(rows);
    var k := y * width + x;
    var p := rows[y][x];
    assert 2 * k + 1 < |bytes| && bytes[2 * k] == Hi(p) && bytes[2 * k + 1] == Lo(p) by {
      EncodedAt(rows, width, y, x);
    }
    assert Words(bytes)[k] == Hi(p) * 256 + Lo(p) by {
      WordsAt(bytes, k);
    }
    HiLo(p);
  }

  lemma WordsAt(bytes: seq<Byte>, k: nat)
    requires 2 * k + 1 < |bytes|
    ensures k < |Words(bytes)| && Words(bytes)[k] == bytes[2 * k] as int * 256 + bytes[2 * k + 1] as int
  {
  }

  // ---------------------------------------------------------------------
  // The test helper
  // ---------------------------------------------------------------------

  /** `REF_W`, `REF_H`: the output array of the helper is always this shape. */
  const RefW := 4
  const RefH := 4

  /** NumPy can stretch a `height` by `width` array of words over the
      helper's `REF_H` by `REF_W` output only along axes of length 1. */
  predicate Broadcasts(width: nat, height: nat) {
    (height == 1 || height == RefH) && (width == 1 || width == RefW)
  }

  /** `_encode_via_module`: the words of the image written into a fixed
      `REF_H` by `2 * REF_W` byte array (high bytes in the even columns, low
      in the odd ones) and flattened. An image NumPy cannot broadcast to that
      shape raises. */
  function EncodeViaModule(img: RgbImage): (r: Result<seq<Byte>, string>)
    requires WellFormed(img)
    ensures r.Ok? <==> Broadcasts(img.width, img.height)
    ensures r.Ok? ==> |r.value| == 2 * RefW * RefH
  {
    if Broadcasts(img.width, img.height) then
      Ok(seq(2 * RefW * RefH, i requires 0 <= i < 2 * RefW * RefH => OutByte(img, i / (2 * RefW), i % (2 * RefW))))
    else
      Err("could not broadcast input array")
  }

  /** `out[y, c]`: the even columns hold `hi`, the odd ones `lo`, of the
      pixel that broadcasting puts at row `y`, column `c / 2`. */
  function OutByte(img: RgbImage, y: nat, c: nat): Byte
    requires WellFormed(img) && Broadcasts(img.width, img.height)
  {
    var p := img.rows[y % img.height][(c / 2) % img.width];
    if c % 2 == 0 then Hi(p) else Lo(p)
  }

  /** At the helper's own size, `out[y, c]` is byte `8 * y + c` of the
      row-major encoding. */
  lemma OutByteExact(img: RgbImage, y: nat, c: nat)
    requires WellFormed(img) && img.width == RefW && img.height == RefH
    requires y < RefH && c < 2 * RefW
    ensures 8 * y + c < |EncodeRows(img.rows)|
    ensures OutByte(img, y, c) == EncodeRows(img.rows)[8 * y + c]
  {
    var x := c / 2;
    assert img.rows[y % img.height][(c / 2) % img.width] == img.rows[y][x] by {
      assert y % 4 == y && x % 4 == x;
    }
    EncodedAtRow(img.rows, RefW, y, c);
    assert RowStart(RefW, y) == 4 * y;
  }

  /** For an image of exactly the helper's size, its output is the row-major
      encoding: `2 * w * h` bytes, each pixel's high byte then its low
      byte. */
  lemma ModuleMatchesEncoder(img: RgbImage)
    requires WellFormed(img) && img.width == RefW && img.height == RefH
    ensures EncodeViaModule(img) == Ok(EncodeRows(img.rows))
    ensures |EncodeViaModule(img).value| == 2 * img.width * img.height
  {
    var out := EncodeViaModule(img).value;
    var enc := EncodeRows(img.rows);
    EncodedLength(img.rows, RefW);
    assert |out| == |enc|;
    forall i | 0 <= i < |out|
      ensures out[i] == enc[i]
    {
      ModuleByteAt(img, i);
    }
    assert out == enc;
  }

  /** One byte of `ModuleMatchesEncoder`. */
  lemma ModuleByteAt(img: RgbImage, i: nat)
    requires WellFormed(img) && img.width == RefW && img.height == RefH
    requires i < 2 * RefW * RefH
    ensures i < |EncodeRows(img.rows)|
    ensures EncodeViaModule(img).value[i] == EncodeRows(img.rows)[i]
  {
    assert EncodeViaModule(img).value[i] == OutByte(img, i / 8, i % 8);
    OutByteExact(img, i / 8, i % 8);
  }

  /** A one-pixel image is stretched over the whole output. */
  lemma SinglePixelFills(p: Pixel)
    ensures EncodeViaModule(RgbImage(1, 1, [[p]])).Ok?
    ensures forall k :: 0 <= k < RefW * RefH ==>
              EncodeViaModule(RgbImage(1, 1, [[p]])).value[2 * k] == Hi(p)
              && EncodeViaModule(RgbImage(1, 1, [[p]])).value[2 * k + 1] == Lo(p)
  {
  }

  /** `test_encoding_correct_under_default_errstate`: a solid (255, 128, 0)
      image encodes to 32 bytes starting 0xFC, 0x00. */
  lemma OrangeFirstPixel()
    ensures EncodeViaModule(Solid(RefW, RefH, Pixel(255, 128, 0))).Ok?
    ensures |EncodeViaModule(Solid(RefW, RefH, Pixel(255, 128, 0))).value| == RefW * RefH * 2
    ensures EncodeViaModule(Solid(RefW, RefH, Pixel(255, 128, 0))).value[0] == 0xFC
    ensures EncodeViaModule(Solid(RefW, RefH, Pixel(255, 128, 0))).value[1] == 0x00
  {
    var p := Pixel(255, 128, 0);
    WordValue(p);
    assert Word(p) as int == 0xFC00;
  }

  /** The same image always encodes to the same bytes, and a solid image of
      the helper's size encodes every pixel alike. */
  lemma SolidIsUniform(color: Pixel, i: nat)
    requires i < RefW * RefH
    ensures EncodeViaModule(Solid(RefW, RefH, color)).value[2 * i] == Hi(color)
    ensures EncodeViaModule(Solid(RefW, RefH, color)).value[2 * i + 1] == Lo(color)
  {
    var img := Solid(RefW, RefH, color);
    var y, c := (2 * i) / 8, (2 * i) % 8;
    assert y < RefH && c % 2 == 0 && (2 * i + 1) / 8 == y && (2 * i + 1) % 8 == c + 1;
    assert EncodeViaModule(img).value[2 * i] == OutByte(img, y, c);
    assert EncodeViaModule(img).value[2 * i + 1] == OutByte(img, y, c + 1);
  }
}
