/**
 * The pixel buffer of src/image.c: creating an image, reading and writing
 * one byte of its interleaved buffer, reading its Y, Cb and Cr planes
 * under the three chroma subsampling modes, and the row stride of a
 * 24-bit BMP row.
 *
 * The C `Image *` that may be NULL is an `Image?`; the plane pointers into
 * `data` are offsets into it, `None` standing for NULL. An image's shape
 * never changes after creation, so its fields are constants and only the
 * bytes of `data` change.
 */
module Images {

  newtype byte = x: int | 0 <= x < 256

  datatype Option<T> = None | Some(value: T)

  /** `ImageFormat`. */
  datatype Format = Rgb | YCbCr | Grayscale

  /** The C enumeration's values 0, 1 and 2; any other value is no format. */
  function FormatOf(code: int): (f: Option<Format>)
    ensures f.Some? <==> 0 <= code <= 2
  {
    if code == 0 then Some(Rgb)
    else if code == 1 then Some(YCbCr)
    else if code == 2 then Some(Grayscale)
    else None
  }

  /** `SubsamplingMode`: chroma at full resolution, at half width, or at half width and half height. */
  datatype Subsampling = Subsample444 | Subsample422 | Subsample420

  /** The number of bytes one sample takes, rounding the bit depth up to whole bytes. */
  function BytesPerSample(bitDepth: int): int {
    (bitDepth + 7) / 8
  }

  /** The size `image_create` gives the buffer. */
  function DataSize(width: nat, height: nat, channels: nat, bitDepth: nat): nat {
    width * height * channels * ((bitDepth + 7) / 8)
  }

  /** Whether `image_create` accepts its arguments. */
  predicate ValidParameters(width: int, height: int, channels: int, bitDepth: int, format: int) {
    width > 0 && height > 0 && channels > 0 && (bitDepth == 8 || bitDepth == 16) && FormatOf(format).Some?
  }

  /** The position of sample (x, y, channel) in the interleaved buffer. */
  function PixelIndex(width: int, channels: int, x: int, y: int, channel: int): int {
    (y * width + x) * channels + channel
  }

  /**
   * The position of the chroma sample for pixel (x, y) within its plane:
   * row-major at full resolution, one sample per two columns in 4:2:2, one
   * per 2×2 square in 4:2:0. `fullWidth` is the row width the 4:4:4 case
   * uses, `planeWidth` the plane's own.
   */
  function ChromaIndex(mode: Subsampling, x: nat, y: nat, fullWidth: nat, planeWidth: nat): nat {
    match mode
    case Subsample444 => y * fullWidth + x
    case Subsample422 => y * planeWidth + x / 2
    case Subsample420 => (y / 2) * planeWidth + x / 2
  }

  /** `Image`. */
  class Image {
    const width: nat
    const height: nat
    const channels: nat
    const bitDepth: nat
    const format: Format
    const data: array<byte>
    const yPlane: Option<nat>
    const cbPlane: Option<nat>
    const crPlane: Option<nat>
    const cbWidth: nat
    const cbHeight: nat
    const crWidth: nat
    const crHeight: nat
    const subsampling: Subsampling

    /**
     * The shape is one `image_create` accepts, the buffer has its size, and
     * every sample an accessor may read from a plane lies inside the buffer.
     */
    ghost predicate Valid() {
      width > 0 && height > 0 && channels > 0 && (bitDepth == 8 || bitDepth == 16) &&
      data.Length == DataSize(width, height, channels, bitDepth) &&
      (yPlane.Some? ==> yPlane.value + height * width <= data.Length) &&
      (cbPlane.Some? ==> forall x: nat, y: nat | x < width && y < height && x < cbWidth && y < cbHeight ::
        cbPlane.value + ChromaIndex(subsampling, x, y, width, cbWidth) < data.Length) &&
      (crPlane.Some? ==> forall x: nat, y: nat | x < width && y < height ::
        crPlane.value + ChromaIndex(subsampling, x, y, crWidth, crWidth) < data.Length)
    }

    /**
     * The body of `image_create` past its checks: a zero-filled buffer, chroma
     * planes as large as the image, 4:4:4, and for a three-channel YCbCr
     * image the Y, Cb and Cr planes one after the other from the start of
     * the buffer.
     */
    constructor (width: nat, height: nat, channels: nat, bitDepth: nat, format: Format)
      requires width > 0 && height > 0 && channels > 0 && (bitDepth == 8 || bitDepth == 16)
      ensures Valid()
      ensures this.width == width && this.height == height && this.channels == channels
      ensures this.bitDepth == bitDepth && this.format == format
      ensures fresh(data) && data.Length == DataSize(width, height, channels, bitDepth)
      ensures forall i | 0 <= i < data.Length :: data[i] == 0
      ensures cbWidth == width && cbHeight == height && crWidth == width && crHeight == height
      ensures subsampling == Subsample444
      ensures format == YCbCr && channels == 3 ==>
        yPlane == Some(0) && cbPlane == Some(width * height) && crPlane == Some(width * height * 2)
      ensures !(format == YCbCr && channels == 3) ==> yPlane.None? && cbPlane.None? && crPlane.None?
    {
      this.width := width;
      this.height := height;
      this.channels := channels;
      this.bitDepth := bitDepth;
      this.format := format;
      var bytesPerPixel := (bitDepth + 7) / 8;
      var dataSize := width * height * channels * bytesPerPixel;
      data := new byte[dataSize](_ => 0);
      cbWidth, cbHeight := width, height;
      crWidth, crHeight := width, height;
      subsampling := Subsample444;
      if format == YCbCr && channels == 3 {
        yPlane := Some(0);
        cbPlane := Some(width * height);
        crPlane := Some(width * height * 2);
        PlanarLayoutFits(width, height, bitDepth);
      } else {
        yPlane, cbPlane, crPlane := None, None, None;
      }
    }
  }

  /** Row y, column x of a w-wide, h-high plane lies inside its w·h samples. */
  lemma RowMajorBound(x: nat, y: nat, w: nat, h: nat)
    requires x < w && y < h
    ensures y * w + x < w * h
  {
    MulMonotone(y + 1, h, w);
  }

  /** Multiplying both sides of a ≤ b by the same c ≥ 0 keeps the order. */
  lemma MulMonotone(a: int, b: int, c: nat)
    requires a <= b
    ensures a * c <= b * c
  {
    var d := b - a;
    assert b * c == a * c + d * c;
  }

  /** A buffer of `bitDepth`-bit samples holds at least one byte per sample. */
  lemma SamplesFit(w: nat, h: nat, channels: nat, bitDepth: nat)
    requires bitDepth == 8 || bitDepth == 16
    ensures w * h * channels <= DataSize(w, h, channels, bitDepth)
  {
    MulMonotone(1, (bitDepth + 7) / 8, w * h * channels);
  }

  /** Three w·h planes placed back to back fit the buffer of a three-channel image. */
  lemma PlanarLayoutFits(w: nat, h: nat, bitDepth: nat)
    requires w > 0 && h > 0 && (bitDepth == 8 || bitDepth == 16)
    ensures w * h * 3 <= DataSize(w, h, 3, bitDepth)
    ensures 0 + h * w <= DataSize(w, h, 3, bitDepth)
    ensures forall x: nat, y: nat | x < w && y < h ::
      w * h + ChromaIndex(Subsample444, x, y, w, w) < DataSize(w, h, 3, bitDepth)
    ensures forall x: nat, y: nat | x < w && y < h ::
      w * h * 2 + ChromaIndex(Subsample444, x, y, w, w) < DataSize(w, h, 3, bitDepth)
  {
    SamplesFit(w, h, 3, bitDepth);
    forall x: nat, y: nat | x < w && y < h
      ensures w * h * 2 + ChromaIndex(Subsample444, x, y, w, w) < DataSize(w, h, 3, bitDepth)
    {
      RowMajorBound(x, y, w, h);
    }
  }

  /**
   * `image_create`: `null` exactly when a dimension or the channel count is
   * not positive, the bit depth is neither 8 nor 16, or the format code is
   * none of the three formats; otherwise a new image of that shape.
   */
  method ImageCreate(width: int, height: int, channels: int, bitDepth: int, format: int) returns (img: Image?)
    ensures img == null <==> !ValidParameters(width, height, channels, bitDepth, format)
    ensures img != null ==>
      fresh(img) && fresh(img.data) && img.Valid() &&
      img.width == width && img.height == height && img.channels == channels &&
      img.bitDepth == bitDepth && Some(img.format) == FormatOf(format) &&
      img.data.Length == width * height * channels * BytesPerSample(bitDepth) &&
      (forall i | 0 <= i < img.data.Length :: img.data[i] == 0) &&
      img.cbWidth == width && img.cbHeight == height && img.crWidth == width && img.crHeight == height &&
      img.subsampling == Subsample444
    ensures img != null && format == 1 && channels == 3 ==>
      img.yPlane == Some(0) && img.cbPlane == Some(width * height) && img.crPlane == Some(width * height * 2)
    ensures img != null && !(format == 1 && channels == 3) ==>
      img.yPlane.None? && img.cbPlane.None? && img.crPlane.None?
  {
    if width <= 0 || height <= 0 || channels <= 0 || (bitDepth != 8 && bitDepth != 16) || FormatOf(format).None? {
      return null;
    }
    img := new Image(width, height, channels, bitDepth, FormatOf(format).value);
  }

  /** Sample (x, y, channel) exists in the image. */
  predicate InPixelRange(img: Image, x: int, y: int, channel: int) {
    0 <= x < img.width && 0 <= y < img.height && 0 <= channel < img.channels
  }

  /** Every sample inside the image has its own position inside the buffer. */
  lemma PixelIndexInBuffer(img: Image, x: int, y: int, channel: int)
    requires img.Valid() && InPixelRange(img, x, y, channel)
    ensures 0 <= PixelIndex(img.width, img.channels, x, y, channel) < img.data.Length
  {
    SampleInBuffer(img.width, img.height, img.channels, img.bitDepth, x, y, channel);
  }

  /** Sample (x, y, channel) of a w×h image lies inside a buffer of `DataSize` bytes. */
  lemma SampleInBuffer(w: nat, h: nat, c: nat, bitDepth: nat, x: nat, y: nat, channel: nat)
    requires x < w && y < h && channel < c && (bitDepth == 8 || bitDepth == 16)
    ensures 0 <= PixelIndex(w, c, x, y, channel) < DataSize(w, h, c, bitDepth)
  {
    var p := y * w + x;
    RowMajorBound(x, y, w, h);
    MulMonotone(p + 1, w * h, c);
    assert (p + 1) * c == p * c + c;
    SamplesFit(w, h, c, bitDepth);
  }

  /** The position of sample (x, y, channel) of an image, inside its buffer. */
  function SampleIndex(img: Image, x: int, y: int, channel: int): (i: nat)
    requires img.Valid() && InPixelRange(img, x, y, channel)
    ensures i < img.data.Length
  {
    PixelIndexInBuffer(img, x, y, channel);
    PixelIndex(img.width, img.channels, x, y, channel)
  }

  /** Distinct samples of the image have distinct positions in the buffer. */
  lemma PixelIndexInjective(img: Image, x1: int, y1: int, c1: int, x2: int, y2: int, c2: int)
    requires InPixelRange(img, x1, y1, c1) && InPixelRange(img, x2, y2, c2)
    requires PixelIndex(img.width, img.channels, x1, y1, c1) == PixelIndex(img.width, img.channels, x2, y2, c2)
    ensures x1 == x2 && y1 == y2 && c1 == c2
  {
    Digits(y1 * img.width + x1, c1, y2 * img.width + x2, c2, img.channels);
    Digits(y1, x1, y2, x2, img.width);
  }

  /** A number written as hi·base + lo with 0 ≤ lo < base has one such writing. */
  lemma Digits(hi1: int, lo1: int, hi2: int, lo2: int, base: int)
    requires 0 <= lo1 < base && 0 <= lo2 < base
    requires hi1 * base + lo1 == hi2 * base + lo2
    ensures hi1 == hi2 && lo1 == lo2
  {
    if hi1 < hi2 {
      MulMonotone(hi1 + 1, hi2, base);
    } else if hi2 < hi1 {
      MulMonotone(hi2 + 1, hi1, base);
    }
  }

  /** `image_get_pixel`: the sample at (x, y, channel), or 0 for a null image or a sample outside it. */
  function GetPixel(img: Image?, x: int, y: int, channel: int): (v: byte)
    requires img != null ==> img.Valid()
    reads if img != null then {img.data} else {}
    ensures img == null || !InPixelRange(img, x, y, channel) ==> v == 0
    ensures img != null && InPixelRange(img, x, y, channel) ==>
      0 <= PixelIndex(img.width, img.channels, x, y, channel) < img.data.Length &&
      v == img.data[PixelIndex(img.width, img.channels, x, y, channel)]
  {
    if img == null || !InPixelRange(img, x, y, channel) then 0
    else img.data[SampleIndex(img, x, y, channel)]
  }

  /**
   * `image_set_pixel`: writes the one byte of sample (x, y, channel) and no
   * other; a null image or a sample outside the image leaves everything as
   * it was. Reading the sample back gives the value written.
   */
  method SetPixel(img: Image?, x: int, y: int, channel: int, value: byte)
    requires img != null ==> img.Valid()
    modifies if img != null then {img.data} else {}
    ensures img != null && InPixelRange(img, x, y, channel) ==>
      img.data[..] == old(img.data[..])[SampleIndex(img, x, y, channel) := value]
    ensures img != null && !InPixelRange(img, x, y, channel) ==> img.data[..] == old(img.data[..])
    ensures img != null && InPixelRange(img, x, y, channel) ==> GetPixel(img, x, y, channel) == value
    ensures forall x', y', c' | x' != x || y' != y || c' != channel ::
      GetPixel(img, x', y', c') == old(GetPixel(img, x', y', c'))
  {
    if img == null || x < 0 || y < 0 || x >= img.width || y >= img.height || channel < 0 || channel >= img.channels {
      return;
    }
    var index := (y * img.width + x) * img.channels + channel;
    assert index == SampleIndex(img, x, y, channel);
    img.data[index] := value;
    forall x', y', c' | (x' != x || y' != y || c' != channel) && InPixelRange(img, x', y', c')
      ensures PixelIndex(img.width, img.channels, x', y', c') != index
    {
      if PixelIndex(img.width, img.channels, x', y', c') == index {
        PixelIndexInjective(img, x', y', c', x, y, channel);
      }
    }
  }

  /** `image_get_y`: the Y sample of pixel (x, y), or 0 when there is no Y plane to read or the pixel is outside the image. */
  function GetY(img: Image?, x: int, y: int): (v: byte)
    requires img != null ==> img.Valid()
    reads if img != null then {img.data} else {}
    ensures (img == null || img.format != YCbCr || img.yPlane.None? ||
             !(0 <= x < img.width && 0 <= y < img.height)) ==> v == 0
    ensures img != null && img.format == YCbCr && img.yPlane.Some? && 0 <= x < img.width && 0 <= y < img.height ==>
      img.yPlane.value + y * img.width + x < img.data.Length && v == img.data[img.yPlane.value + y * img.width + x]
  {
    if img == null || img.format != YCbCr || img.yPlane.None? || x < 0 || y < 0 || x >= img.width || y >= img.height then 0
    else
      RowMajorBound(x, y, img.width, img.height);
      img.data[img.yPlane.value + y * img.width + x]
  }

  /**
   * `image_get_cb`: the Cb sample of pixel (x, y) under the image's
   * subsampling, or the neutral 128 when there is no Cb plane or the pixel
   * lies outside the image or outside the Cb plane's recorded size.
   */
  function GetCb(img: Image?, x: int, y: int): (v: byte)
    requires img != null ==> img.Valid()
    reads if img != null then {img.data} else {}
    ensures (img == null || img.format != YCbCr || img.cbPlane.None? ||
             !(0 <= x < img.width && 0 <= y < img.height) || x >= img.cbWidth || y >= img.cbHeight) ==> v == 128
    ensures (img != null && img.format == YCbCr && img.cbPlane.Some? &&
             0 <= x < img.width && 0 <= y < img.height && x < img.cbWidth && y < img.cbHeight) ==>
      var i := img.cbPlane.value + ChromaIndex(img.subsampling, x, y, img.width, img.cbWidth);
      i < img.data.Length && v == img.data[i]
  {
    if img == null || img.format != YCbCr || img.cbPlane.None? ||
       x < 0 || y < 0 || x >= img.cbWidth || y >= img.cbHeight then 128
    else if x >= img.width || y >= img.height then 128
    else img.data[img.cbPlane.value + ChromaIndex(img.subsampling, x, y, img.width, img.cbWidth)]
  }

  /**
   * `image_get_cr`: the Cr sample of pixel (x, y) under the image's
   * subsampling, or the neutral 128 when there is no Cr plane or the pixel
   * lies outside the image; unlike Cb, the plane's recorded size is not
   * consulted.
   */
  function GetCr(img: Image?, x: int, y: int): (v: byte)
    requires img != null ==> img.Valid()
    reads if img != null then {img.data} else {}
    ensures (img == null || img.format != YCbCr || img.crPlane.None? ||
             !(0 <= x < img.width && 0 <= y < img.height)) ==> v == 128
    ensures img != null && img.format == YCbCr && img.crPlane.Some? && 0 <= x < img.width && 0 <= y < img.height ==>
      var i := img.crPlane.value + ChromaIndex(img.subsampling, x, y, img.crWidth, img.crWidth);
      i < img.data.Length && v == img.data[i]
  {
    if img == null || img.format != YCbCr || img.crPlane.None? then 128
    else if x < 0 || y < 0 || x >= img.width || y >= img.height then 128
    else img.data[img.crPlane.value + ChromaIndex(img.subsampling, x, y, img.crWidth, img.crWidth)]
  }

  /**
   * The accessors' fallbacks: with no image, an image not in YCbCr, or a
   * pixel outside the image, Y reads 0 and Cb and Cr read the neutral 128.
   */
  lemma AccessorFallbacks(img: Image?, x: int, y: int)
    requires img != null ==> img.Valid()
    requires img == null || img.format != YCbCr || !(0 <= x < img.width && 0 <= y < img.height)
    ensures GetY(img, x, y) == 0 && GetCb(img, x, y) == 128 && GetCr(img, x, y) == 128
  {
  }

  /**
   * On a fresh three-channel YCbCr image (planes back to back, 4:4:4) the
   * three accessors read three disjoint ranges of the buffer: Y from
   * [0, w·h), Cb from [w·h, 2·w·h) and Cr from [2·w·h, 3·w·h).
   */
  lemma PlanesDisjoint(img: Image, x: int, y: int)
    requires img.Valid() && img.format == YCbCr && img.subsampling == Subsample444
    requires img.yPlane == Some(0) && img.cbPlane == Some(img.width * img.height)
    requires img.crPlane == Some(img.width * img.height * 2)
    requires img.cbWidth == img.width && img.cbHeight == img.height && img.crWidth == img.width
    requires img.channels == 3
    requires 0 <= x < img.width && 0 <= y < img.height
    ensures var i := y * img.width + x;
      0 <= i < img.width * img.height && img.width * img.height * 3 <= img.data.Length &&
      GetY(img, x, y) == img.data[i] &&
      GetCb(img, x, y) == img.data[img.width * img.height + i] &&
      GetCr(img, x, y) == img.data[img.width * img.height * 2 + i]
  {
    RowMajorBound(x, y, img.width, img.height);
    PlanarLayoutFits(img.width, img.height, img.bitDepth);
  }

  /** In 4:2:2 the two pixels of a column pair share their chroma samples. */
  lemma ChromaShared422(img: Image, x: int, y: int)
    requires img.Valid() && img.subsampling == Subsample422
    requires 0 <= x && x % 2 == 0
    ensures GetCb(img, x, y) == GetCb(img, x + 1, y) || x + 1 >= img.width || x + 1 >= img.cbWidth
    ensures GetCr(img, x, y) == GetCr(img, x + 1, y) || x + 1 >= img.width
  {
  }

  /** In 4:2:0 the four pixels of a 2×2 square share their chroma samples. */
  lemma ChromaShared420(img: Image, x: int, y: int, dx: int, dy: int)
    requires img.Valid() && img.subsampling == Subsample420
    requires 0 <= x && x % 2 == 0 && 0 <= y && y % 2 == 0 && 0 <= dx <= 1 && 0 <= dy <= 1
    requires x + 1 < img.width && y + 1 < img.height
    ensures GetCr(img, x + dx, y + dy) == GetCr(img, x, y)
    ensures x + 1 < img.cbWidth && y + 1 < img.cbHeight ==> GetCb(img, x + dx, y + dy) == GetCb(img, x, y)
  {
    assert (x + dx) / 2 == x / 2 && (y + dy) / 2 == y / 2;
  }

  // ---------------------------------------------------------------------
  // BMP rows

  /** The bytes a 24-bit BMP row of `width` pixels takes on disk, rounded up to a multiple of 4. */
  function RowStride(width: nat): nat {
    ((width * 3 + 3) / 4) * 4
  }

  /** The zero bytes that pad a BMP row to its stride. */
  function RowPadding(width: nat): int {
    RowStride(width) - width * 3
  }

  /**
   * The stride is the least multiple of 4 that holds the row's 3·width
   * bytes, so the padding is between 0 and 3 bytes.
   */
  lemma RowStrideIsLeastMultiple(width: nat, m: nat)
    ensures RowStride(width) % 4 == 0
    ensures RowStride(width) >= width * 3
    ensures 0 <= RowPadding(width) <= 3
    ensures m % 4 == 0 && m >= width * 3 ==> m >= RowStride(width)
  {
    var q := (width * 3 + 3) / 4;
    assert width * 3 + 3 == q * 4 + (width * 3 + 3) % 4;
    if m % 4 == 0 && m >= width * 3 {
      var k := m / 4;
      assert m == k * 4;
      assert k * 4 + 3 >= q * 4;
      assert k >= q;
    }
  }
}
