/**
 * The clipboard record `Data` (src/clipboard.rs) and the decoder that turns a
 * device-independent bitmap (clipboard format CF_DIB) into a preview image.
 */
module Clipboard {
  import opened Wrappers

  /** An unsigned byte (`u8`). */
  type Byte = b: int | 0 <= b < 0x100

  /** An unsigned 32-bit integer (`u32`, the Windows `UINT` behind `c_uint`). */
  type U32 = n: int | 0 <= n < 0x1_0000_0000

  /** `u32` arithmetic wraps modulo 2^32 (a release build has no overflow checks). */
  function Wrap32(n: int): U32 {
    n % 0x1_0000_0000
  }

  // Windows clipboard format identifiers used by the program.
  const CF_TEXT: U32 := 1
  const CF_DIB: U32 := 8
  const CF_UNICODETEXT: U32 := 13

  /** An MD5 digest: 16 bytes. */
  type Digest = d: seq<Byte> | |d| == 16
    witness [0, 0, 0, 0, 0, 0, 0, 0, 0, 0, 0, 0, 0, 0, 0, 0]

  /** The all-zero digest `[0; 16]`. */
  const ZERO_DIGEST: Digest := [0, 0, 0, 0, 0, 0, 0, 0, 0, 0, 0, 0, 0, 0, 0, 0]

  // ---------------------------------------------------------------------
  // Images

  datatype Rgba = Rgba(r: Byte, g: Byte, b: Byte, a: Byte)

  /** An `ImageBuffer<Rgba<u8>>`: pixels in row-major order, top row first. */
  datatype RgbaImage = RgbaImage(width: U32, height: U32, pixels: seq<Rgba>)

  /**
   * A preview (`ColorImage`), given by the image buffer it is built from.
   * `Native` is the decoded image buffer at its own size; `Lanczos3` stands
   * for the Lanczos3 resampling of `source` to at most MAX_PREVIEW pixels a
   * side, whose size and pixels are left abstract. The pixels are the
   * unmultiplied RGBA of the image buffer, before `from_rgba_unmultiplied`
   * premultiplies them by alpha.
   */
  datatype ColorImage = Native(image: RgbaImage) | Lanczos3(source: RgbaImage)

  /** The decoded image a preview shows, before any resampling. */
  function ImageOf(c: ColorImage): RgbaImage {
    match c
    case Native(i) => i
    case Lanczos3(s) => s
  }

  /** `ColorImage::default()`: zero by zero, no pixels. */
  const DEFAULT_IMAGE: ColorImage := Native(RgbaImage(0, 0, []))

  /** Largest preview side kept without resampling. */
  const MAX_PREVIEW: nat := 150

  /** Length of the bitmap information header that precedes the pixels. */
  const HEADER_LEN: nat := 40

  // ---------------------------------------------------------------------
  // Bitmap header

  /** Little-endian `u32` of four bytes, `b0 | b1 << 8 | b2 << 16 | b3 << 24`. */
  function LeU32(b: seq<Byte>): U32
    requires |b| == 4
  {
    var b0, b1, b2, b3: int := b[0], b[1], b[2], b[3];
    b0 + b1 * 0x100 + b2 * 0x1_0000 + b3 * 0x100_0000
  }

  /** The four little-endian bytes of `n`. */
  function LeBytes(n: U32): (b: seq<Byte>)
    ensures |b| == 4
  {
    [n % 0x100, n / 0x100 % 0x100, n / 0x1_0000 % 0x100, n / 0x100_0000]
  }

  /** Reading back the bytes of `n` gives `n`. */
  lemma LeRoundTrip(n: U32)
    ensures LeU32(LeBytes(n)) == n
  {
    var q1, q2, q3: int := n / 0x100, n / 0x1_0000, n / 0x100_0000;
    assert n == n % 0x100 + q1 * 0x100;
    assert q1 == q1 % 0x100 + q2 * 0x100;
    assert q2 == q2 % 0x100 + q3 * 0x100;
    assert q1 / 0x100 == q2 && q2 / 0x100 == q3;
  }

  /** Encoding the value read from four bytes gives back those bytes. */
  lemma LeBytesRoundTrip(b: seq<Byte>)
    requires |b| == 4
    ensures LeBytes(LeU32(b)) == b
  {
    var n := LeU32(b);
    var b0, b1, b2, b3: int := b[0], b[1], b[2], b[3];
    DivModUnique(n, 0x100, b1 + b2 * 0x100 + b3 * 0x1_0000, b0);
    DivModUnique(n / 0x100, 0x100, b2 + b3 * 0x100, b1);
    DivModUnique(n, 0x1_0000, b2 + b3 * 0x100, b0 + b1 * 0x100);
    DivModUnique(n / 0x1_0000, 0x100, b3, b2);
    DivModUnique(n, 0x100_0000, b3, b0 + b1 * 0x100 + b2 * 0x1_0000);
  }

  /** Row stride in bytes at 32 bits per pixel: `((width * 32 + 31) / 32) * 4` in `u32`. */
  function Stride(width: U32): U32 {
    (Wrap32(width * 32 + 31) / 32) * 4
  }

  /** Width, height and stride read from the header. */
  datatype Header = Header(width: U32, height: U32, stride: U32)

  function ReadHeader(dib: seq<Byte>): Header
    requires |dib| >= 12
  {
    var width := LeU32(dib[4..8]);
    Header(width, LeU32(dib[8..12]), Stride(width))
  }

  /** Number of pixels of the decoded image. */
  function PixelCount(h: Header): nat {
    h.width * h.height
  }

  /** Length of the pixel area, `height * stride` in `u32`. */
  function AreaLen(h: Header): U32 {
    Wrap32(h.height * h.stride)
  }

  /**
   * Offset of the bytes of output pixel (x, y): `(height - 1 - y) * stride + x * 4`
   * in `u32` (wrapping each operation or only the result gives the same value).
   */
  function PixelOffset(h: Header, x: int, y: int): U32 {
    Wrap32((h.height - 1 - y) * h.stride + x * 4)
  }

  /** The four bytes of the pixel at row-major index `k` lie inside an area of `len` bytes. */
  predicate InArea(h: Header, len: int, k: int) {
    h.width > 0 && PixelOffset(h, k % h.width, k / h.width) + 3 < len
  }

  /**
   * Every read of the decoder succeeds: the header fields, the slice of the
   * pixel area, and the four bytes of each pixel.
   */
  predicate Decodable(dib: seq<Byte>) {
    |dib| >= 12 &&
    var h := ReadHeader(dib);
    HEADER_LEN + AreaLen(h) <= |dib| &&
    forall k :: 0 <= k < PixelCount(h) ==> InArea(h, AreaLen(h), k)
  }

  /** Output pixel (x, y): the BGRA bytes at its offset, reordered to RGBA. */
  function Pixel(area: seq<Byte>, h: Header, x: int, y: int): Rgba
    requires PixelOffset(h, x, y) + 3 < |area|
  {
    var o := PixelOffset(h, x, y);
    Rgba(area[o + 2], area[o + 1], area[o], area[o + 3])
  }

  /** The pixel area that follows the header. */
  function Area(dib: seq<Byte>): seq<Byte>
    requires |dib| >= 12 && HEADER_LEN + AreaLen(ReadHeader(dib)) <= |dib|
  {
    dib[HEADER_LEN..HEADER_LEN + AreaLen(ReadHeader(dib))]
  }

  /** The image of a pixel area: pixel k in row-major order is `Pixel` at (k % width, k / width). */
  function PixelsOf(area: seq<Byte>, h: Header): seq<Rgba>
    requires forall k :: 0 <= k < PixelCount(h) ==> InArea(h, |area|, k)
  {
    var n := PixelCount(h);
    seq(n, k requires 0 <= k < n && InArea(h, |area|, k) => Pixel(area, h, k % h.width, k / h.width))
  }

  /**
   * What `generate_image` computes from the raw bytes: `None` where the source
   * panics, else the flipped and channel-swapped image, resampled when a side
   * exceeds MAX_PREVIEW.
   */
  function Decode(dib: seq<Byte>): Option<ColorImage> {
    if !Decodable(dib) then None
    else
      var h := ReadHeader(dib);
      var image := RgbaImage(h.width, h.height, PixelsOf(Area(dib), h));
      Some(if h.width > MAX_PREVIEW || h.height > MAX_PREVIEW then Lanczos3(image) else Native(image))
  }

  // ---------------------------------------------------------------------
  // Text

  /** Rust's `char::is_whitespace`: the Unicode White_Space property. */
  predicate IsWhitespace(c: char) {
    ('\t' <= c <= '\r') || c == ' ' || c == '\U{0085}' || c == '\U{00A0}' || c == '\U{1680}'
    || ('\U{2000}' <= c <= '\U{200A}') || c == '\U{2028}' || c == '\U{2029}' || c == '\U{202F}'
    || c == '\U{205F}' || c == '\U{3000}'
  }

  /** `s` neither starts nor ends with whitespace. */
  predicate Unpadded(s: string) {
    s != [] ==> !IsWhitespace(s[0]) && !IsWhitespace(s[|s| - 1])
  }

  /** `trim_start`: the longest suffix of `s` that does not start with whitespace. */
  function TrimStart(s: string): (r: string)
    ensures |r| <= |s| && r == s[|s| - |r|..]
    ensures forall j :: 0 <= j < |s| - |r| ==> IsWhitespace(s[j])
    ensures r != [] ==> !IsWhitespace(r[0])
  {
    if s != [] && IsWhitespace(s[0]) then TrimStart(s[1..]) else s
  }

  /** `trim_end`: the longest prefix of `s` that does not end with whitespace. */
  function TrimEnd(s: string): (r: string)
    ensures |r| <= |s| && r == s[..|r|]
    ensures forall j :: |r| <= j < |s| ==> IsWhitespace(s[j])
    ensures r != [] ==> !IsWhitespace(r[|r| - 1])
  {
    if s != [] && IsWhitespace(s[|s| - 1]) then TrimEnd(s[..|s| - 1]) else s
  }

  /**
   * `r` is the slice of `s` starting at `i`, and every character of `s`
   * before or after that slice is whitespace.
   */
  predicate TrimmedAt(s: string, r: string, i: int) {
    0 <= i <= |s| - |r| && r == s[i..i + |r|] &&
    (forall j :: 0 <= j < i ==> IsWhitespace(s[j])) &&
    (forall j :: i + |r| <= j < |s| ==> IsWhitespace(s[j]))
  }

  /** `trim`: `s` without leading and trailing whitespace. */
  function Trim(s: string): (r: string)
    ensures Unpadded(r) && |r| <= |s|
    ensures exists i :: TrimmedAt(s, r, i)
    ensures Unpadded(s) ==> r == s
  {
    var front := TrimStart(s);
    var r := TrimEnd(front);
    assert TrimmedAt(s, r, |s| - |front|);
    r
  }

  // ---------------------------------------------------------------------
  // The record

  /** The value of a `Data`, as the queue stores it. */
  datatype ContentRecord = ContentRecord(dataType: U32, raw: seq<Byte>, md5: Digest,
                                         data: Option<string>, img: Option<ColorImage>)
  {
    function GetContent(): seq<Byte> {
      raw
    }

    function GetMd5(): Digest {
      md5
    }

    function GetType(): U32 {
      dataType
    }

    /** The stored text trimmed, or "" when no text was set. */
    function GetData(): (s: string)
      ensures data.None? ==> s == ""
      ensures Unpadded(s)
      ensures data.Some? ==> exists i :: TrimmedAt(data.value, s, i)
      ensures data.Some? && Unpadded(data.value) ==> s == data.value
    {
      Trim(data.GetOr(""))
    }

    /** The preview, or the empty default image when none was built. */
    function GetImage(): ColorImage {
      img.GetOr(DEFAULT_IMAGE)
    }
  }

  /** A clipboard capture, filled in place by `SetRaw` and `SetData`. */
  class Data {
    var dataType: U32
    var raw: seq<Byte>
    var md5: Digest
    var data: Option<string>
    var img: Option<ColorImage>

    /** The value of this object. */
    function Record(): ContentRecord
      reads this
    {
      ContentRecord(dataType, raw, md5, data, img)
    }

    /** `Data::new`: no bytes, a zero digest, no text, no preview. */
    constructor (dataType: U32)
      ensures Record() == ContentRecord(dataType, [], ZERO_DIGEST, None, None)
    {
      this.dataType := dataType;
      raw := [];
      md5 := ZERO_DIGEST;
      data := None;
      img := None;
    }

    /**
     * `set_raw`: stores the bytes and their digest; for CF_DIB also builds the
     * preview. `ok` is false exactly when the source panics while decoding.
     */
    method SetRaw(raw: seq<Byte>, md5Of: seq<Byte> -> Digest) returns (ok: bool)
      modifies this
      ensures this.raw == raw && md5 == md5Of(raw)
      ensures dataType == old(dataType) && data == old(data)
      ensures ok <==> dataType != CF_DIB || Decode(raw).Some?
      ensures dataType == CF_DIB && ok ==> img == Decode(raw)
      ensures dataType != CF_DIB ==> img == old(img)
    {
      this.raw := raw;
      md5 := md5Of(raw);
      if dataType == CF_DIB {
        var preview := GenerateImage();
        if preview.None? {
          return false;
        }
        img := preview;
      }
      ok := true;
    }

    /** `set_data`: stores the text. */
    method SetData(data: string)
      modifies this
      ensures Record() == old(Record()).(data := Some(data))
    {
      this.data := Some(data);
    }

    /**
     * `generate_image`: reads width and height, copies the pixel area and fills
     * the image row by row, top row first, swapping BGRA to RGBA. Returns `None`
     * where an index or slice of the source is out of bounds (a panic there).
     */
    method GenerateImage() returns (r: Option<ColorImage>)
      ensures r == Decode(raw)
    {
      var dib := raw;
      if |dib| < 12 {
        return None;
      }
      var h := ReadHeader(dib);
      var len: int := AreaLen(h);
      if HEADER_LEN + len > |dib| {
        return None;
      }
      var buffer := dib[HEADER_LEN..HEADER_LEN + len];
      var pixels := new Rgba[PixelCount(h)](_ => Rgba(0, 0, 0, 0));
      var ok := FillPixels(pixels, buffer, h);
      if !ok {
        return None;
      }
      assert buffer == Area(dib);
      FilledComplete(pixels[..], dib);
      var image := RgbaImage(h.width, h.height, pixels[..]);
      r := Some(if h.width > MAX_PREVIEW || h.height > MAX_PREVIEW then Lanczos3(image) else Native(image));
    }
  }

  /**
   * The `for y` / `for x` loops of `generate_image`: fills `pixels` row by row,
   * top row first, with each pixel's bytes reordered from BGRA to RGBA. Stops
   * with `ok` false at the first pixel whose bytes are not all in `area` (where
   * the source's indexing panics).
   */
  method FillPixels(pixels: array<Rgba>, area: seq<Byte>, h: Header) returns (ok: bool)
    requires pixels.Length == PixelCount(h)
    modifies pixels
    ensures ok <==> forall k :: 0 <= k < PixelCount(h) ==> InArea(h, |area|, k)
    ensures ok ==> Filled(pixels[..], area, h)
  {
    var width: nat, height: nat := h.width, h.height;
    var y: nat, i: nat := 0, 0;
    while y < height
      invariant 0 <= y <= height && i == y * width <= PixelCount(h)
      invariant Filled(pixels[..i], area, h)
    {
      var x: nat := 0;
      while x < width
        invariant 0 <= x <= width && i == y * width + x <= PixelCount(h)
        invariant Filled(pixels[..i], area, h)
      {
        RowMajor(x, y, width, height);
        var offset: int := PixelOffset(h, x, y);
        if offset + 3 >= |area| {
          assert !InArea(h, |area|, i);
          return false;
        }
        ghost var done := pixels[..i];
        FilledSnoc(done, area, h, x, y);
        pixels[i] := Rgba(area[offset + 2], area[offset + 1], area[offset], area[offset + 3]);
        assert pixels[..i + 1] == done + [Pixel(area, h, x, y)];
        x, i := x + 1, i + 1;
      }
      RowsFit(y, width, height);
      y := y + 1;
    }
    assert pixels[..] == pixels[..i];
    ok := true;
  }

  /** The first |s| pixels, in row-major order, are the decoder's output pixels. */
  ghost predicate Filled(s: seq<Rgba>, area: seq<Byte>, h: Header) {
    forall k :: 0 <= k < |s| ==> InArea(h, |area|, k) && s[k] == Pixel(area, h, k % h.width, k / h.width)
  }

  lemma FilledSnoc(s: seq<Rgba>, area: seq<Byte>, h: Header, x: int, y: int)
    requires Filled(s, area, h)
    requires 0 <= x < h.width && 0 <= y < h.height && |s| == y * h.width + x
    requires PixelOffset(h, x, y) + 3 < |area|
    ensures Filled(s + [Pixel(area, h, x, y)], area, h)
  {
    RowMajor(x, y, h.width, h.height);
  }

  /** A complete fill of a decodable bitmap is the decoder's pixel sequence. */
  lemma FilledComplete(s: seq<Rgba>, dib: seq<Byte>)
    requires |dib| >= 12 && HEADER_LEN + AreaLen(ReadHeader(dib)) <= |dib|
    requires Filled(s, Area(dib), ReadHeader(dib))
    requires |s| == PixelCount(ReadHeader(dib))
    ensures Decodable(dib) && s == PixelsOf(Area(dib), ReadHeader(dib))
  {
    var h, area := ReadHeader(dib), Area(dib);
    forall k | 0 <= k < PixelCount(h)
      ensures InArea(h, AreaLen(h), k)
    {
      assert InArea(h, |area|, k);
    }
    var p := PixelsOf(area, h);
    forall k | 0 <= k < |s|
      ensures s[k] == p[k]
    {
    }
  }

  // ---------------------------------------------------------------------
  // Properties of the decoder

  /** The stride is a multiple of 4, and is exactly 4 * width when width * 32 does not wrap. */
  lemma StrideOfWidth(w: U32)
    ensures Stride(w) % 4 == 0
    ensures w < 0x800_0000 ==> Stride(w) == 4 * w
  {
  }

  /** The header arithmetic does not wrap: width * 32 and height * stride fit in `u32`. */
  predicate NoWrap(h: Header) {
    h.width < 0x800_0000 && h.height * (4 * h.width) < 0x1_0000_0000
  }

  /** A header read from a bitmap without wrap-around has stride 4 * width and an unwrapped area. */
  lemma NoWrapArea(h: Header)
    requires NoWrap(h) && h.stride == Stride(h.width)
    ensures h.stride == 4 * h.width
    ensures h.height * h.stride < 0x1_0000_0000
    ensures AreaLen(h) == h.height * h.stride
  {
    StrideOfWidth(h.width);
    assert h.stride == 4 * h.width;
    var area := h.height * h.stride;
    assert area == h.height * (4 * h.width);
    MulMono(0, h.height, h.stride);
    assert 0 <= area < 0x1_0000_0000;
  }

  /**
   * Without wrap-around, the offset of pixel (x, y) is (height - 1 - y) * stride + 4 * x
   * and its four bytes lie inside the pixel area.
   */
  lemma OffsetInArea(h: Header, x: int, y: int)
    requires h.stride == 4 * h.width && h.height * h.stride < 0x1_0000_0000
    requires 0 <= x < h.width && 0 <= y < h.height
    ensures PixelOffset(h, x, y) == (h.height - 1 - y) * h.stride + 4 * x
    ensures PixelOffset(h, x, y) + 3 < AreaLen(h) == h.height * h.stride
  {
    var o := (h.height - 1 - y) * h.stride + 4 * x;
    assert (h.height - 1 - y) * h.stride + h.stride == (h.height - y) * h.stride;
    MulMono(h.height - y, h.height, h.stride);
    MulMono(0, h.height - 1 - y, h.stride);
    assert 0 <= o < 0x1_0000_0000;
  }

  /** Without wrap-around every pixel of the header lies inside its area. */
  lemma AllInArea(h: Header)
    requires h.stride == 4 * h.width && h.height * h.stride < 0x1_0000_0000
    ensures forall k :: 0 <= k < PixelCount(h) ==> InArea(h, AreaLen(h), k)
  {
    forall k | 0 <= k < PixelCount(h)
      ensures InArea(h, AreaLen(h), k)
    {
      FlatIndex(k, h.width, h.height);
      OffsetInArea(h, k % h.width, k / h.width);
    }
  }

  /**
   * For a header without wrap-around the decoder succeeds exactly when the
   * buffer holds the 40-byte header and the whole pixel area after it.
   */
  lemma DecodableIff(dib: seq<Byte>)
    requires |dib| >= 12 && NoWrap(ReadHeader(dib))
    ensures Decodable(dib) <==> |dib| >= HEADER_LEN + ReadHeader(dib).height * ReadHeader(dib).stride
  {
    var h := ReadHeader(dib);
    NoWrapArea(h);
    if |dib| >= HEADER_LEN + h.height * h.stride {
      AllInArea(h);
    }
  }

  /** Image-buffer pixel (x, y) is the pixel at the source offset of (x, y), reordered to RGBA. */
  lemma DecodedPixel(dib: seq<Byte>, x: int, y: int)
    requires |dib| >= 12 && Decode(dib).Some?
    requires 0 <= x < ReadHeader(dib).width && 0 <= y < ReadHeader(dib).height
    ensures var h, p := ReadHeader(dib), ImageOf(Decode(dib).value).pixels;
            var i := y * h.width + x;
            PixelOffset(h, x, y) + 3 < AreaLen(h) && 0 <= i < |p| &&
            p[i] == Pixel(Area(dib), h, x, y)
  {
    var h := ReadHeader(dib);
    RowMajor(x, y, h.width, h.height);
    assert InArea(h, AreaLen(h), y * h.width + x);
  }

  /**
   * For a well-formed bitmap, image-buffer pixel (x, y) is made of bytes 2, 1, 0, 3
   * of the source pixel x of stored row height - 1 - y: rows are flipped to
   * top-first order and BGRA becomes RGBA.
   */
  lemma WellFormedPixel(dib: seq<Byte>, x: int, y: int)
    requires |dib| >= 12 && NoWrap(ReadHeader(dib))
    requires |dib| >= HEADER_LEN + ReadHeader(dib).height * ReadHeader(dib).stride
    requires 0 <= x < ReadHeader(dib).width && 0 <= y < ReadHeader(dib).height
    ensures Decode(dib).Some?
    ensures var h, p := ReadHeader(dib), ImageOf(Decode(dib).value).pixels;
            var i, o := y * h.width + x, HEADER_LEN + (h.height - 1 - y) * h.stride + 4 * x;
            HEADER_LEN <= o && o + 4 <= HEADER_LEN + h.height * h.stride && 0 <= i < |p| &&
            p[i] == Rgba(dib[o + 2], dib[o + 1], dib[o], dib[o + 3])
  {
    var h := ReadHeader(dib);
    DecodableIff(dib);
    NoWrapArea(h);
    OffsetInArea(h, x, y);
    DecodedPixel(dib, x, y);
  }

  /**
   * The preview has the header's width and height and one pixel per (x, y);
   * it is kept at its native size exactly when neither side exceeds 150.
   */
  lemma PreviewShape(dib: seq<Byte>)
    requires |dib| >= 12 && Decode(dib).Some?
    ensures var h, c := ReadHeader(dib), Decode(dib).value;
            ImageOf(c).width == h.width && ImageOf(c).height == h.height &&
            |ImageOf(c).pixels| == h.width * h.height &&
            (c.Native? <==> h.width <= MAX_PREVIEW && h.height <= MAX_PREVIEW)
  {
  }

  /** A buffer too short for the 40-byte header never decodes. */
  lemma ShortBufferFails(dib: seq<Byte>)
    requires |dib| < HEADER_LEN
    ensures Decode(dib).None?
  {
  }

  /** A 40-byte information header for a 32-bit bitmap of the given size. */
  function InfoHeader(width: U32, height: U32): (b: seq<Byte>)
    ensures |b| == HEADER_LEN
  {
    [40, 0, 0, 0] + LeBytes(width) + LeBytes(height) + [1, 0, 32, 0]
    + [0, 0, 0, 0, 0, 0, 0, 0, 0, 0, 0, 0, 0, 0, 0, 0, 0, 0, 0, 0, 0, 0, 0, 0]
  }

  /** Reading the header back gives the width and height it was written with. */
  lemma ReadInfoHeader(width: U32, height: U32, pixels: seq<Byte>)
    ensures ReadHeader(InfoHeader(width, height) + pixels) == Header(width, height, Stride(width))
  {
    var dib := InfoHeader(width, height) + pixels;
    assert dib[4..8] == LeBytes(width);
    assert dib[8..12] == LeBytes(height);
    LeRoundTrip(width);
    LeRoundTrip(height);
  }

  /**
   * A 2 x 2 bitmap whose stored (bottom) row is blue and whose top row is red,
   * in BGRA byte order, previews as a red row over a blue row in RGBA.
   */
  lemma TwoByTwoExample()
    ensures var blue, red := [255, 0, 0, 255], [0, 0, 255, 255];
            Decode(InfoHeader(2, 2) + blue + blue + red + red)
            == Some(Native(RgbaImage(2, 2, [Rgba(255, 0, 0, 255), Rgba(255, 0, 0, 255),
                                             Rgba(0, 0, 255, 255), Rgba(0, 0, 255, 255)])))
  {
    var blue, red := [255, 0, 0, 255], [0, 0, 255, 255];
    var area: seq<Byte> := [255, 0, 0, 255, 255, 0, 0, 255, 0, 0, 255, 255, 0, 0, 255, 255];
    assert area == blue + blue + red + red;
    assert InfoHeader(2, 2) + area == InfoHeader(2, 2) + blue + blue + red + red;
    TwoByTwoDecode(InfoHeader(2, 2) + area, area);
  }

  lemma TwoByTwoDecode(dib: seq<Byte>, area: seq<Byte>)
    requires area == [255, 0, 0, 255, 255, 0, 0, 255, 0, 0, 255, 255, 0, 0, 255, 255]
    requires dib == InfoHeader(2, 2) + area
    ensures Decode(dib) == Some(Native(RgbaImage(2, 2, [Rgba(255, 0, 0, 255), Rgba(255, 0, 0, 255),
                                                        Rgba(0, 0, 255, 255), Rgba(0, 0, 255, 255)])))
  {
    ReadInfoHeader(2, 2, area);
    assert ReadHeader(dib) == Header(2, 2, 8);
    DecodableIff(dib);
    assert Area(dib) == area;
    TwoByTwoPixels(area);
  }

  /** The pixels of the 2 x 2 example, top row first, in RGBA order. */
  lemma TwoByTwoPixels(area: seq<Byte>)
    requires area == [255, 0, 0, 255, 255, 0, 0, 255, 0, 0, 255, 255, 0, 0, 255, 255]
    ensures forall k :: 0 <= k < PixelCount(Header(2, 2, 8)) ==> InArea(Header(2, 2, 8), |area|, k)
    ensures PixelsOf(area, Header(2, 2, 8))
            == [Rgba(255, 0, 0, 255), Rgba(255, 0, 0, 255), Rgba(0, 0, 255, 255), Rgba(0, 0, 255, 255)]
  {
    var h := Header(2, 2, 8);
    TwoByTwoInArea(|area|);
    assert |PixelsOf(area, h)| == 4;
    PixelAt(area, h, 0);
    PixelAt(area, h, 1);
    PixelAt(area, h, 2);
    PixelAt(area, h, 3);
    TwoByTwoSamples(area);
  }

  /** Element k of the decoded image is the pixel at column k % width of row k / width. */
  lemma PixelAt(area: seq<Byte>, h: Header, k: int)
    requires forall j :: 0 <= j < PixelCount(h) ==> InArea(h, |area|, j)
    requires 0 <= k < PixelCount(h)
    ensures h.width > 0 && PixelOffset(h, k % h.width, k / h.width) + 3 < |area|
    ensures PixelsOf(area, h)[k] == Pixel(area, h, k % h.width, k / h.width)
  {
    assert InArea(h, |area|, k);
  }

  lemma TwoByTwoInArea(len: int)
    requires len == 16
    ensures forall k :: 0 <= k < PixelCount(Header(2, 2, 8)) ==> InArea(Header(2, 2, 8), len, k)
  {
    AllInArea(Header(2, 2, 8));
  }

  /** Bottom-up rows: the top output row reads the second stored row. */
  lemma TwoByTwoSamples(area: seq<Byte>)
    requires area == [255, 0, 0, 255, 255, 0, 0, 255, 0, 0, 255, 255, 0, 0, 255, 255]
    ensures Pixel(area, Header(2, 2, 8), 0, 0) == Pixel(area, Header(2, 2, 8), 1, 0) == Rgba(255, 0, 0, 255)
    ensures Pixel(area, Header(2, 2, 8), 0, 1) == Pixel(area, Header(2, 2, 8), 1, 1) == Rgba(0, 0, 255, 255)
  {
  }

  // ---------------------------------------------------------------------
  // Index arithmetic

  /** Row-major index of (x, y) in a w-by-h image, and its inverse. */
  lemma RowMajor(x: int, y: int, w: int, h: int)
    requires 0 <= x < w && 0 <= y < h
    ensures 0 <= y * w + x < w * h
    ensures (y * w + x) % w == x && (y * w + x) / w == y
  {
    RowsFit(y, w, h);
    DivModUnique(y * w + x, w, y, x);
  }

  /** Division by w has a unique quotient and remainder. */
  lemma DivModUnique(k: int, w: int, q: int, m: int)
    requires 0 <= m < w && k == q * w + m
    ensures k / w == q && k % w == m
  {
    var q', m' := k / w, k % w;
    assert q' * w + m' == q * w + m;
    if q' > q {
      assert (q' - q) * w == q' * w - q * w;
      MulMono(1, q' - q, w);
    } else if q' < q {
      assert (q - q') * w == q * w - q' * w;
      MulMono(1, q - q', w);
    }
  }

  lemma MulMono(a: int, b: int, c: int)
    requires a <= b && 0 <= c
    ensures a * c <= b * c
  {
  }

  /** A row-major index below w * h splits into a column below w and a row below h. */
  lemma FlatIndex(k: int, w: int, h: int)
    requires 0 <= k < w * h && 0 <= w && 0 <= h
    ensures w > 0 && 0 <= k % w < w && 0 <= k / w < h
  {
    assert w != 0;
    if k / w >= h {
      assert (k / w) * w <= k;
      MulMono(h, k / w, w);
    }
  }

  /** After row y the next row starts at (y + 1) * w, still inside the image. */
  lemma RowsFit(y: int, w: int, h: int)
    requires 0 <= y < h && 0 <= w
    ensures y * w + w == (y + 1) * w <= w * h
  {
  }
}
