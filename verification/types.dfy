/**
 * The values exchanged by the encoder and the decoder: pixels, images,
 * encoding options, failures.
 */
module Types {
  import opened Bits

  /** An 8-bit-per-channel colour (Go's color.RGBA). */
  datatype RGBA = RGBA(r: byte, g: byte, b: byte, a: byte)

  /**
   * A pixel of the input image as the encoder sees it after
   * color.RGBAModel.Convert(c).(color.RGBA): either the converted colour, or the
   * case where the type assertion fails (ok == false).
   */
  datatype SourceColor = Convertible(rgba: RGBA) | Inconvertible

  /** The input image: width * height pixels in row-major order (y outer, x inner). */
  datatype SourceImage = SourceImage(width: nat, height: nat, pixels: seq<SourceColor>)
  {
    predicate Valid()
    {
      |pixels| == width * height
    }

    /** img.At(x, y): the pixel in column x of row y. */
    function At(x: nat, y: nat): SourceColor
      requires Valid() && x < width && y < height
    {
      RowWithin(y, width, height);
      RowStartArea(height, width);
      pixels[RowStart(y, width) + x]
    }
  }

  /** The row-major index of the first pixel of row y in an image width pixels wide, added up row by row. */
  function RowStart(y: nat, width: nat): (start: nat)
  {
    if y == 0 then 0 else RowStart(y - 1, width) + width
  }

  /** Rows of width pixels stacked height high cover width * height pixels. */
  lemma {:induction false} RowStartArea(height: nat, width: nat)
    ensures RowStart(height, width) == width * height
  {
    if height > 0 {
      RowStartArea(height - 1, width);
    }
  }

  /** Row y of an image height rows high lies within it. */
  lemma {:induction false} RowWithin(y: nat, width: nat, height: nat)
    requires y < height
    ensures RowStart(y, width) + width <= RowStart(height, width)
    decreases height
  {
    if y + 1 < height {
      RowWithin(y, width, height - 1);
    }
  }

  /** The decoded image (Go's *image.RGBA with bounds (0,0)-(width,height)), row-major. */
  datatype Raster = Raster(width: nat, height: nat, pixels: seq<RGBA>)

  /** ImageOptions: how an image is encoded, or was encoded as far as the header tells. */
  datatype ImageOptions = ImageOptions(
    hueShift: byte,
    alphaThreshold: byte,
    useAlphaMask: bool,
    compressAlphaMask: bool,
    uniformHue: bool,
    excludeMaskedPixels: bool)

  /**
   * Why an operation produced no result. IndexOutOfRange stands for the Go
   * runtime panic of a slice index past the end.
   */
  datatype Failure =
    | ImageTooLarge
    | HeaderUnreadable
    | HeaderTooShort
    | InvalidFormatTag
    | AlphaMaskUnreadable
    | PixelDataUnreadable
    | IndexOutOfRange

  datatype Result<T> = Ok(value: T) | Err(failure: Failure)

  /** n copies of v. */
  function Repeat<T>(v: T, n: nat): (s: seq<T>)
    ensures |s| == n && forall i :: 0 <= i < n ==> s[i] == v
  {
    seq(n, _ => v)
  }
}
