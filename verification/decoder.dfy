/**
 * The decoder (decode.go): the header parse, the expansion of the alpha section
 * and the pixel section into RGBA pixels, and the order in which Decode reads
 * the two sections.
 */
module Decoder {
  import opened Bits
  import opened Wire
  import opened Data
  import opened Types
  import opened AlphaMask
  import opened PixelSamples

  /** ImageConfig: the options the header implies, the dimensions and the two section lengths. */
  datatype ImageConfig = ImageConfig(options: ImageOptions, width: nat, height: nat, alphaLength: nat, pixelLength: nat)

  // ---------------------------------------------------------------- header

  /**
   * DecodeConfig: reads the 32-byte header from the front of the stream. An
   * empty stream is a failed read, a shorter one a short header; the tag must
   * read "BLUB". The alpha mask is taken to be in use iff the alpha length is
   * non-zero, the hue to be uniform iff the pixel length is zero; the flags
   * give the two remaining options and the threshold is always 0.
   */
  function DecodeConfig(stream: seq<byte>): (r: Result<ImageConfig>)
    ensures |stream| == 0 ==> r == Err(HeaderUnreadable)
    ensures 0 < |stream| < HeaderSize ==> r == Err(HeaderTooShort)
    ensures r.Err? <==> |stream| < HeaderSize || stream[..4] != ['B' as byte, 'L' as byte, 'U' as byte, 'B' as byte]
    ensures r.Ok? ==> r.value.width < Max16 && r.value.height < Max16
    ensures r.Ok? ==> r.value.alphaLength < Max32 && r.value.pixelLength < Max32
    ensures r.Ok? ==> r.value.options.alphaThreshold == 0
  {
    if |stream| == 0 then Err(HeaderUnreadable)
    else if |stream| < HeaderSize then Err(HeaderTooShort)
    else
      var header := stream[..HeaderSize];
      FormatTagSpellsBlub();
      BigEndian32RoundTrip(FormatTag, header[0..4]);
      var tag := Uint32BE(header[0..4]);
      if tag != FormatTag then Err(InvalidFormatTag)
      else
        var width, height := Uint16LE(header[4..6]), Uint16LE(header[6..8]);
        var alphaLength, pixelLength := Uint32LE(header[8..12]), Uint32LE(header[12..16]);
        var hueShift, flags := header[16], header[17];
        Ok(ImageConfig(
          ImageOptions(
            hueShift, 0, alphaLength > 0,
            BitAt(flags, CompressAlphaBit), pixelLength == 0, BitAt(flags, ExcludeMaskedPixelsBit)),
          width, height, alphaLength, pixelLength))
  }

  // ---------------------------------------------------------------- pixels

  /**
   * The tint the hue path gives a gray value: RGBToHSV of (gray, gray, gray), then
   * HSVToRGB at hue hueShift / 256 * 360 degrees, saturation 1 and the same value.
   * It is floating-point code in an external library, so it is a parameter.
   */
  type HueTint = (byte, byte) -> (byte, byte, byte)

  /** The output pixel: gray, or its tint when the hue shift is non-zero; alpha 255 when opaque, else 0. */
  function PixelColor(gray: byte, isOpaque: bool, hueShift: byte, tint: HueTint): (c: RGBA)
    ensures c.a == (if isOpaque then 255 else 0)
    ensures hueShift == 0 ==> c.r == gray && c.g == gray && c.b == gray
    ensures hueShift != 0 ==> (c.r, c.g, c.b) == tint(gray, hueShift)
  {
    var a: byte := if isOpaque then 255 else 0;
    if hueShift != 0 then
      var (r, g, b) := tint(gray, hueShift);
      RGBA(r, g, b, a)
    else RGBA(gray, gray, gray, a)
  }

  /**
   * The pixels decoded from an opacity stream, in row-major order: each takes the
   * next unread pixel byte when the inclusion rule keeps it and 255 otherwise.
   */
  function DecodePixels(uniform: bool, exclude: bool, hueShift: byte, tint: HueTint, stream: seq<bool>, pix: seq<byte>): (px: seq<RGBA>)
    requires CountIncluded(uniform, exclude, stream) <= |pix|
    ensures |px| == |stream|
    decreases |stream|
  {
    if stream == [] then []
    else
      var n := |stream| - 1;
      DecodePixels(uniform, exclude, hueShift, tint, stream[..n], pix)
        + [PixelColor(GrayAt(uniform, exclude, stream[..n], stream[n], pix), stream[n], hueShift, tint)]
  }

  /** Counting within a prefix of length n: one more pixel adds its own inclusion and stays within the prefix's count. */
  lemma CountWithin(uniform: bool, exclude: bool, stream: seq<bool>, i: nat, n: nat)
    requires i < n <= |stream|
    ensures CountIncluded(uniform, exclude, stream[..i + 1]) ==
              CountIncluded(uniform, exclude, stream[..i]) + (if Included(uniform, exclude, stream[i]) then 1 else 0)
    ensures CountIncluded(uniform, exclude, stream[..i + 1]) <= CountIncluded(uniform, exclude, stream[..n])
  {
    assert stream[..n][..i + 1] == stream[..i + 1];
    assert stream[..n][..i] == stream[..i];
    CountPrefix(uniform, exclude, stream[..n], i);
  }

  /** Decoding one more pixel appends the colour of that pixel. */
  lemma DecodePixelsPrefix(uniform: bool, exclude: bool, hueShift: byte, tint: HueTint, stream: seq<bool>, pix: seq<byte>, i: nat)
    requires i < |stream| && CountIncluded(uniform, exclude, stream[..i + 1]) <= |pix|
    ensures CountIncluded(uniform, exclude, stream[..i]) <= |pix|
    ensures Included(uniform, exclude, stream[i]) ==> CountIncluded(uniform, exclude, stream[..i]) < |pix|
    ensures DecodePixels(uniform, exclude, hueShift, tint, stream[..i + 1], pix) ==
              DecodePixels(uniform, exclude, hueShift, tint, stream[..i], pix)
                + [PixelColor(GrayAt(uniform, exclude, stream[..i], stream[i], pix), stream[i], hueShift, tint)]
  {
    assert stream[..i + 1][..i] == stream[..i];
  }

  /** Pixel i of the decoded image is the colour of its gray value and opacity. */
  lemma {:induction false} DecodePixelsAt(uniform: bool, exclude: bool, hueShift: byte, tint: HueTint, stream: seq<bool>, pix: seq<byte>, i: nat)
    requires CountIncluded(uniform, exclude, stream) <= |pix| && i < |stream|
    ensures Included(uniform, exclude, stream[i]) ==> CountIncluded(uniform, exclude, stream[..i]) < |pix|
    ensures DecodePixels(uniform, exclude, hueShift, tint, stream, pix)[i] ==
              PixelColor(GrayAt(uniform, exclude, stream[..i], stream[i], pix), stream[i], hueShift, tint)
    decreases |stream|
  {
    var n := |stream| - 1;
    CountWithin(uniform, exclude, stream, i, |stream|);
    assert stream[..|stream|] == stream;
    if i < n {
      assert stream[..n][..i] == stream[..i] && stream[..n][i] == stream[i];
      DecodePixelsAt(uniform, exclude, hueShift, tint, stream[..n], pix, i);
    }
  }

  /**
   * What decodeImageData returns: a width * height image whose opacities are the
   * first width * height entries of the alpha stream, and whose gray values come
   * from the pixel section in order. An alpha or pixel section too short for the
   * image is a slice index out of range: there is no all-opaque fallback when
   * the alpha section is empty.
   */
  function ImageData(conf: ImageConfig, pix: seq<byte>, alpha: seq<byte>, tint: HueTint): (r: Result<Raster>)
    ensures r.Ok? ==> r.value.width == conf.width && r.value.height == conf.height
    ensures r.Ok? ==> |r.value.pixels| == conf.width * conf.height
    ensures r.Err? ==> r.failure == IndexOutOfRange
  {
    var n := conf.width * conf.height;
    var o := conf.options;
    var stream := MaskStream(o.compressAlphaMask, alpha);
    if |stream| < n then Err(IndexOutOfRange)
    else if CountIncluded(o.uniformHue, o.excludeMaskedPixels, stream[..n]) > |pix| then Err(IndexOutOfRange)
    else Ok(Raster(conf.width, conf.height, DecodePixels(o.uniformHue, o.excludeMaskedPixels, o.hueShift, tint, stream[..n], pix)))
  }

  /** An image with at least one pixel cannot be decoded from an empty alpha section, in either mode. */
  lemma NoOpaqueFallback(conf: ImageConfig, pix: seq<byte>, tint: HueTint)
    requires conf.width * conf.height > 0
    ensures ImageData(conf, pix, [], tint) == Err(IndexOutOfRange)
  {
    assert |AllBits([])| == 0;
  }

  // ---------------------------------------------------------------- reading the alpha section

  /**
   * The bitmask reader: pixel done's opacity is bit 7 - alphaMod of byte
   * alphaIndex, where done == 8 * alphaIndex + alphaMod. Reading past the last
   * byte is the panic.
   */
  method ReadBit(alpha: seq<byte>, alphaIndex: nat, alphaMod: nat, ghost done: nat)
    returns (ok: bool, av: bool, nextIndex: nat, nextMod: nat)
    requires alphaMod < 8 && 8 * alphaIndex + alphaMod == done
    ensures ok <==> done < |AllBits(alpha)|
    ensures ok ==> av == AllBits(alpha)[done] && nextMod < 8 && 8 * nextIndex + nextMod == done + 1
  {
    nextIndex, nextMod := alphaIndex, alphaMod;
    if nextIndex >= |alpha| {
      return false, false, nextIndex, nextMod;
    }
    av := MsbBit(alpha[nextIndex], nextMod);
    nextMod := nextMod + 1;
    if nextMod == 8 {
      nextMod := 0;
      nextIndex := nextIndex + 1;
    }
    assert done / 8 == alphaIndex && done % 8 == alphaMod;
    ok := true;
  }

  /**
   * The run-length reader's state after done pixels: the records before
   * alphaIndex expand to the done pixels read and count more of value buffered.
   */
  ghost predicate RunCursor(alpha: seq<byte>, alphaIndex: nat, buffered: bool, count: nat, done: nat)
  {
    && alphaIndex <= |alpha| && count < 256
    && |Flatten(alpha[..alphaIndex])| == done + count
    && forall k :: done <= k < done + count ==> Flatten(alpha[..alphaIndex])[k] == buffered
  }

  /** The records of a prefix expand to a prefix of the whole expansion. */
  lemma FlattenPrefix(alpha: seq<byte>, k: nat)
    requires k <= |alpha|
    ensures Flatten(alpha) == Flatten(alpha[..k]) + Flatten(alpha[k..])
  {
    assert alpha == alpha[..k] + alpha[k..];
    FlattenAppend(alpha[..k], alpha[k..]);
  }

  /**
   * The run-length reader: when the counter is zero, load the next record (its
   * value, and its 7-bit length as the uint8 counter), then decrement the
   * counter with uint8 wrap-around and yield the buffered value. Loading past
   * the last record is the panic.
   */
  method ReadRun(alpha: seq<byte>, alphaIndex: nat, buffered: bool, count: nat, ghost done: nat)
    returns (ok: bool, av: bool, nextIndex: nat, nextBuffered: bool, nextCount: nat)
    requires RunCursor(alpha, alphaIndex, buffered, count, done)
    ensures ok <==> done < |Flatten(alpha)|
    ensures ok ==> av == Flatten(alpha)[done] && RunCursor(alpha, nextIndex, nextBuffered, nextCount, done + 1)
  {
    FlattenPrefix(alpha, alphaIndex);
    nextIndex, nextBuffered, nextCount := alphaIndex, buffered, count;
    if nextCount == 0 {
      if nextIndex >= |alpha| {
        assert alpha[..alphaIndex] == alpha;
        return false, false, nextIndex, nextBuffered, nextCount;
      }
      var ar := alpha[nextIndex];
      nextIndex := nextIndex + 1;
      nextBuffered := RunValue(ar);
      nextCount := RunCount(ar);
      assert alpha[..nextIndex] == alpha[..alphaIndex] + [ar];
      FlattenAppend(alpha[..alphaIndex], [ar]);
      FlattenOne(ar);
      FlattenPrefix(alpha, nextIndex);
    }
    nextCount := (nextCount + 255) % 256;
    av := nextBuffered;
    ok := true;
  }

  /** The state of either alpha reader after done pixels. */
  ghost predicate AlphaCursor(compress: bool, alpha: seq<byte>, alphaIndex: nat, alphaMod: nat, buffered: bool, count: nat, done: nat)
  {
    if compress then RunCursor(alpha, alphaIndex, buffered, count, done)
    else alphaMod < 8 && 8 * alphaIndex + alphaMod == done
  }

  /** The opacity of pixel done, from the bitmask or from the run-length records. */
  method ReadAlpha(compress: bool, alpha: seq<byte>, alphaIndex: nat, alphaMod: nat, buffered: bool, count: nat, ghost done: nat)
    returns (ok: bool, av: bool, nextIndex: nat, nextMod: nat, nextBuffered: bool, nextCount: nat)
    requires AlphaCursor(compress, alpha, alphaIndex, alphaMod, buffered, count, done)
    ensures ok <==> done < |MaskStream(compress, alpha)|
    ensures ok ==> av == MaskStream(compress, alpha)[done]
    ensures ok ==> AlphaCursor(compress, alpha, nextIndex, nextMod, nextBuffered, nextCount, done + 1)
  {
    nextIndex, nextMod, nextBuffered, nextCount := alphaIndex, alphaMod, buffered, count;
    if !compress {
      ok, av, nextIndex, nextMod := ReadBit(alpha, alphaIndex, alphaMod, done);
    } else {
      ok, av, nextIndex, nextBuffered, nextCount := ReadRun(alpha, alphaIndex, buffered, count, done);
    }
  }

  /** The gray value of a pixel: the next pixel byte when the pixel is kept (reading past the end is the panic), else 255. */
  method ReadGray(pix: seq<byte>, pixIndex: nat, keep: bool) returns (ok: bool, gray: byte, nextIndex: nat)
    ensures ok <==> !keep || pixIndex < |pix|
    ensures ok ==> gray == (if keep then pix[pixIndex] else 255)
    ensures nextIndex == pixIndex + (if keep then 1 else 0)
  {
    gray, nextIndex := 0xFF, pixIndex;
    if keep {
      if nextIndex >= |pix| {
        return false, gray, nextIndex + 1;
      }
      gray := pix[nextIndex];
      nextIndex := nextIndex + 1;
    }
    ok := true;
  }

  // ---------------------------------------------------------------- decodeImageData

  /**
   * decodeImageData's cursors: the alpha reader's position (alphaIndex, alphaMod
   * for the bitmask; alphaIndex, the buffered run value and its remaining count
   * for the run-length records) and the next unread pixel byte.
   */
  datatype Reader = Reader(alphaIndex: int, alphaMod: int, buffered: bool, count: int, pixIndex: int)

  /**
   * The state of decodeImageData after the pixels decoded so far: they are the
   * first entries of the alpha stream, decoded; the reader has used the pixel
   * bytes of those included and is positioned at the next pixel.
   */
  ghost predicate Decoding(conf: ImageConfig, pix: seq<byte>, alpha: seq<byte>, tint: HueTint, decoded: seq<RGBA>, rd: Reader)
  {
    var o := conf.options;
    var stream := MaskStream(o.compressAlphaMask, alpha);
    var done := |decoded|;
    && 0 <= rd.alphaIndex && 0 <= rd.alphaMod && 0 <= rd.count
    && done <= |stream|
    && rd.pixIndex == CountIncluded(o.uniformHue, o.excludeMaskedPixels, stream[..done]) <= |pix|
    && decoded == DecodePixels(o.uniformHue, o.excludeMaskedPixels, o.hueShift, tint, stream[..done], pix)
    && AlphaCursor(o.compressAlphaMask, alpha, rd.alphaIndex, rd.alphaMod, rd.buffered, rd.count, done)
  }

  /**
   * One pass of decodeImageData's loop body: the opacity of the next pixel, its
   * gray value and its colour. It fails, as the image data does, when either
   * section runs out before the image's width * height pixels.
   */
  method DecodePixel(conf: ImageConfig, pix: seq<byte>, alpha: seq<byte>, tint: HueTint, ghost decoded: seq<RGBA>, rd: Reader)
    returns (ok: bool, c: RGBA, next: Reader)
    requires |decoded| < RowStart(conf.height, conf.width)
    requires Decoding(conf, pix, alpha, tint, decoded, rd)
    ensures !ok ==> ImageData(conf, pix, alpha, tint) == Err(IndexOutOfRange)
    ensures ok ==> Decoding(conf, pix, alpha, tint, decoded + [c], next)
  {
    var compress, uniform, exclude := conf.options.compressAlphaMask, conf.options.uniformHue, conf.options.excludeMaskedPixels;
    var hueShift := conf.options.hueShift;
    ghost var stream := MaskStream(compress, alpha);
    ghost var n, done := conf.width * conf.height, |decoded|;
    RowStartArea(conf.height, conf.width);
    var av, alphaIndex, alphaMod, buffered, count;
    ok, av, alphaIndex, alphaMod, buffered, count := ReadAlpha(compress, alpha, rd.alphaIndex, rd.alphaMod, rd.buffered, rd.count, done);
    c, next := RGBA(0, 0, 0, 0), rd;
    if !ok {
      return;
    }
    var gray, pixIndex;
    ok, gray, pixIndex := ReadGray(pix, rd.pixIndex, !uniform && (!exclude || av));
    if !ok {
      if |stream| >= n {
        CountWithin(uniform, exclude, stream, done, n);
      }
      return;
    }
    CountPrefix(uniform, exclude, stream, done);
    DecodePixelsPrefix(uniform, exclude, hueShift, tint, stream, pix, done);
    c := PixelColor(gray, av, hueShift, tint);
    next := Reader(alphaIndex, alphaMod, buffered, count, pixIndex);
  }

  /** Once every pixel is decoded, the pixels are the image data. */
  lemma DecodingDone(conf: ImageConfig, pix: seq<byte>, alpha: seq<byte>, tint: HueTint, decoded: seq<RGBA>, rd: Reader)
    requires |decoded| == RowStart(conf.height, conf.width)
    requires Decoding(conf, pix, alpha, tint, decoded, rd)
    ensures ImageData(conf, pix, alpha, tint) == Ok(Raster(conf.width, conf.height, decoded))
  {
    RowStartArea(conf.height, conf.width);
  }

  /** The pixels decoded so far are those stored at the start of the image. */
  ghost predicate Filled(img: seq<RGBA>, decoded: seq<RGBA>)
  {
    |decoded| <= |img| && forall k :: 0 <= k < |decoded| ==> img[k] == decoded[k]
  }

  /** Storing the next pixel right after those decoded so far extends them. */
  lemma StoreNext(img: seq<RGBA>, decoded: seq<RGBA>, c: RGBA)
    requires Filled(img, decoded) && |decoded| < |img|
    ensures Filled(img[|decoded| := c], decoded + [c])
  {
  }

  /**
   * decodeImageData: visits the pixels row by row, decodes each, and stores the
   * resulting colour at (x, y), the row-major offset of row y plus x.
   */
  method DecodeImageData(conf: ImageConfig, pix: seq<byte>, alpha: seq<byte>, tint: HueTint) returns (r: Result<Raster>)
    ensures r == ImageData(conf, pix, alpha, tint)
  {
    var imgwidth, imgheight := conf.width, conf.height;
    var img := Repeat(RGBA(0, 0, 0, 0), imgwidth * imgheight);
    var rd := Reader(0, 0, false, 0, 0);
    ghost var decoded := [];
    RowStartArea(imgheight, imgwidth);
    var y := 0;
    while y < imgheight
      invariant 0 <= y <= imgheight
      invariant |decoded| == RowStart(y, imgwidth) && |img| == RowStart(imgheight, imgwidth)
      invariant Filled(img, decoded)
      invariant Decoding(conf, pix, alpha, tint, decoded, rd)
    {
      RowWithin(y, imgwidth, imgheight);
      var ok;
      ok, img, rd, decoded := DecodeRow(conf, pix, alpha, tint, img, RowStart(y, imgwidth), decoded, rd);
      if !ok {
        return Err(IndexOutOfRange);
      }
      y := y + 1;
    }
    assert img == decoded;
    DecodingDone(conf, pix, alpha, tint, decoded, rd);
    return Ok(Raster(imgwidth, imgheight, img));
  }

  /** The inner loop of decodeImageData: the pixels of one row, stored right after those decoded so far. */
  method DecodeRow(conf: ImageConfig, pix: seq<byte>, alpha: seq<byte>, tint: HueTint, img: seq<RGBA>, offset: nat,
                   ghost decoded: seq<RGBA>, rd: Reader)
    returns (ok: bool, nextImg: seq<RGBA>, next: Reader, ghost nextDecoded: seq<RGBA>)
    requires offset == |decoded| && offset + conf.width <= |img| == RowStart(conf.height, conf.width)
    requires Filled(img, decoded)
    requires Decoding(conf, pix, alpha, tint, decoded, rd)
    ensures !ok ==> ImageData(conf, pix, alpha, tint) == Err(IndexOutOfRange)
    ensures ok ==> |nextImg| == |img| && |nextDecoded| == |decoded| + conf.width
    ensures ok ==> Filled(nextImg, nextDecoded)
    ensures ok ==> Decoding(conf, pix, alpha, tint, nextDecoded, next)
  {
    nextImg, next, nextDecoded := img, rd, decoded;
    var x := 0;
    while x < conf.width
      invariant 0 <= x <= conf.width
      invariant |nextDecoded| == offset + x && |nextImg| == |img|
      invariant Filled(nextImg, nextDecoded)
      invariant Decoding(conf, pix, alpha, tint, nextDecoded, next)
    {
      var c;
      ok, c, next := DecodePixel(conf, pix, alpha, tint, nextDecoded, next);
      if !ok {
        return;
      }
      StoreNext(nextImg, nextDecoded, c);
      nextImg := nextImg[offset + x := c];
      nextDecoded := nextDecoded + [c];
      x := x + 1;
    }
    ok := true;
  }

  // ---------------------------------------------------------------- Decode

  /**
   * What Decode returns, with the decompression of the payload left out: the
   * header, then the alpha section (alphaLength bytes) when the header says the
   * mask is used, then the pixel section (pixelLength bytes) unless the hue is
   * uniform; a section the stream cannot supply in full is a read error. A
   * section that is not read stays a zeroed buffer of its header length.
   */
  function Decoded(stream: seq<byte>, tint: HueTint): (r: Result<Raster>)
    ensures |stream| < HeaderSize ==> r.Err?
  {
    match DecodeConfig(stream)
    case Err(e) => Err(e)
    case Ok(conf) =>
      var payload := stream[HeaderSize..];
      var alphaEnd := if conf.options.useAlphaMask then conf.alphaLength else 0;
      if |payload| < alphaEnd then Err(AlphaMaskUnreadable)
      else
        var pixelEnd := alphaEnd + (if conf.options.uniformHue then 0 else conf.pixelLength);
        if |payload| < pixelEnd then Err(PixelDataUnreadable)
        else
          var alphaMask := if conf.options.useAlphaMask then payload[..alphaEnd] else Repeat<byte>(0, conf.alphaLength);
          var pixelData := if conf.options.uniformHue then Repeat<byte>(0, conf.pixelLength) else payload[alphaEnd..pixelEnd];
          ImageData(conf, pixelData, alphaMask, tint)
  }

  /**
   * Decode: parses the header, reads the alpha section and then the pixel
   * section from the payload in that order, and decodes the image data.
   */
  method Decode(stream: seq<byte>, tint: HueTint) returns (r: Result<Raster>)
    ensures r == Decoded(stream, tint)
  {
    var c := DecodeConfig(stream);
    if c.Err? {
      return Err(c.failure);
    }
    var conf := c.value;
    var payload := stream[HeaderSize..];
    var alphaMask := Repeat<byte>(0, conf.alphaLength);
    var pixelData := Repeat<byte>(0, conf.pixelLength);
    var offset := 0;
    if conf.options.useAlphaMask {
      if |payload| < conf.alphaLength {
        return Err(AlphaMaskUnreadable);
      }
      alphaMask := payload[..conf.alphaLength];
      offset := conf.alphaLength;
    }
    if !conf.options.uniformHue {
      if |payload| - offset < conf.pixelLength {
        return Err(PixelDataUnreadable);
      }
      pixelData := payload[offset..offset + conf.pixelLength];
    }
    r := DecodeImageData(conf, pixelData, alphaMask, tint);
  }
}
