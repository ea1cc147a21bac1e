/**
 * The encoder (encode.go): colour to luma, the intermediate image format, the
 * two payload sections, the flag byte and the header.
 */
module Encoder {
  import opened Bits
  import opened Wire
  import opened Data
  import opened Types
  import opened AlphaMask
  import opened PixelSamples

  // ---------------------------------------------------------------- colour transform

  /** Integer luma weights; they sum to 1000. */
  const RWeight: nat := 299
  const GWeight: nat := 587
  const BWeight: nat := 114

  datatype Gray = Gray(luma: byte, isOpaque: bool)

  /**
   * colorToGray: luma is the weighted sum divided by 1000 and rounded to the
   * nearest integer (halves up, as math.Round does for non-negative values),
   * then converted with uint8(); the pixel is opaque iff its alpha is strictly
   * above the threshold. A colour that does not convert to RGBA gives luma 0
   * and counts as opaque.
   */
  function ColorToGray(c: SourceColor, threshold: byte): (g: Gray)
    ensures c.Inconvertible? ==> g == Gray(0, true)
    ensures c.Convertible? ==>
      var sum := RWeight * c.rgba.r + GWeight * c.rgba.g + BWeight * c.rgba.b;
      && 1000 * g.luma - 500 <= sum < 1000 * g.luma + 500
      && (g.isOpaque <==> c.rgba.a > threshold)
  {
    match c
    case Inconvertible => Gray(0, true)
    case Convertible(rgba) =>
      var r := rgba.r * RWeight;
      var g := rgba.g * GWeight;
      var b := rgba.b * BWeight;
      var y := (r + g + b + 500) / (RWeight + GWeight + BWeight);
      Gray(y % 256, rgba.a > threshold)
  }

  // ---------------------------------------------------------------- flags

  /** buildFlags: bit 7 for the RLE alpha mask, bit 6 for leaving masked pixels out, nothing else. */
  function BuildFlags(opts: ImageOptions): (flags: byte)
    ensures BitAt(flags, CompressAlphaBit) == opts.compressAlphaMask
    ensures BitAt(flags, ExcludeMaskedPixelsBit) == opts.excludeMaskedPixels
    ensures forall k: nat :: k != CompressAlphaBit && k != ExcludeMaskedPixelsBit ==> !BitAt(flags, k)
  {
    ZeroBits();
    SetBitByte(0, CompressAlphaBit);
    SetBitAll(0, CompressAlphaBit);
    var flags: byte := if opts.compressAlphaMask then SetBit(0, CompressAlphaBit) else 0;
    SetBitByte(flags, ExcludeMaskedPixelsBit);
    SetBitAll(flags, ExcludeMaskedPixelsBit);
    if opts.excludeMaskedPixels then SetBit(flags, ExcludeMaskedPixelsBit) else flags
  }

  // ---------------------------------------------------------------- image format

  /** The image before processing: per-pixel opacity and luma, and whether every pixel is opaque. */
  datatype ImageFormat = ImageFormat(alphaMask: seq<bool>, pixelData: seq<byte>, allOpaque: bool)

  function MaskOf(img: SourceImage, threshold: byte): (mask: seq<bool>)
    ensures |mask| == |img.pixels|
  {
    seq(|img.pixels|, i requires 0 <= i < |img.pixels| => ColorToGray(img.pixels[i], threshold).isOpaque)
  }

  function LumaOf(img: SourceImage, threshold: byte): (luma: seq<byte>)
    ensures |luma| == |img.pixels|
  {
    seq(|img.pixels|, i requires 0 <= i < |img.pixels| => ColorToGray(img.pixels[i], threshold).luma)
  }

  function FormatOf(img: SourceImage, threshold: byte): (f: ImageFormat)
  {
    ImageFormat(MaskOf(img, threshold), LumaOf(img, threshold), forall i :: 0 <= i < |img.pixels| ==> MaskOf(img, threshold)[i])
  }

  /**
   * formatImage: visits the pixels row by row and records, at each row-major
   * index, the pixel's opacity and luma; the image is opaque iff every pixel is.
   */
  method FormatImage(img: SourceImage, opts: ImageOptions) returns (f: ImageFormat)
    requires img.Valid()
    ensures f == FormatOf(img, opts.alphaThreshold)
    ensures |f.alphaMask| == |f.pixelData| == img.width * img.height
    ensures f.allOpaque <==> forall i :: 0 <= i < |f.alphaMask| ==> f.alphaMask[i]
  {
    var imgwidth, imgheight := img.width, img.height;
    var size := imgwidth * imgheight;
    var alphaMask := new bool[size];
    var pixelData := new byte[size];
    ghost var mask, luma := MaskOf(img, opts.alphaThreshold), LumaOf(img, opts.alphaThreshold);
    var index := 0;
    var isOpaque := true;
    RowStartArea(imgheight, imgwidth);
    var y := 0;
    while y < imgheight
      invariant 0 <= y <= imgheight
      invariant index == RowStart(y, imgwidth) <= size
      invariant forall k :: 0 <= k < index ==> alphaMask[k] == mask[k] && pixelData[k] == luma[k]
      invariant isOpaque <==> forall k :: 0 <= k < index ==> mask[k]
    {
      RowWithin(y, imgwidth, imgheight);
      var x := 0;
      while x < imgwidth
        invariant 0 <= x <= imgwidth
        invariant index == RowStart(y, imgwidth) + x
        invariant forall k :: 0 <= k < index ==> alphaMask[k] == mask[k] && pixelData[k] == luma[k]
        invariant isOpaque <==> forall k :: 0 <= k < index ==> mask[k]
      {
        var g := ColorToGray(img.At(x, y), opts.alphaThreshold);
        assert g.isOpaque == mask[index] && g.luma == luma[index];
        alphaMask[index] := g.isOpaque;
        pixelData[index] := g.luma;
        index := index + 1;
        if isOpaque && !g.isOpaque {
          isOpaque := false;
        }
        x := x + 1;
      }
      y := y + 1;
    }
    assert alphaMask[..] == mask && pixelData[..] == luma;
    f := ImageFormat(alphaMask[..], pixelData[..], isOpaque);
  }

  // ---------------------------------------------------------------- payload sections

  datatype Sections = Sections(pixels: seq<byte>, alpha: seq<byte>)

  /**
   * What processImageFormat returns. An opaque image keeps all its luma bytes
   * and has no alpha section. Otherwise the pixel section follows the inclusion
   * rule and the alpha section is the bitmask or the RLE records; the RLE records
   * go into a buffer of only (n + 7) / 8 bytes, and one record too many is an
   * index-out-of-range panic.
   */
  function SectionsOf(f: ImageFormat, opts: ImageOptions): (r: Result<Sections>)
    requires |f.alphaMask| == |f.pixelData|
  {
    if f.allOpaque then Ok(Sections(f.pixelData, []))
    else
      var pixels := PixelSection(opts.uniformHue, opts.excludeMaskedPixels, f.alphaMask, f.pixelData);
      if !opts.compressAlphaMask then Ok(Sections(pixels, PackBits(f.alphaMask)))
      else if |RleEncode(f.alphaMask)| <= (|f.alphaMask| + 7) / 8 then Ok(Sections(pixels, RleEncode(f.alphaMask)))
      else Err(IndexOutOfRange)
  }

  /** The records scanned so far never outnumber the records of the whole mask. */
  lemma {:induction false} RleScanMonotone(mask: seq<bool>, j: nat)
    requires j <= |mask|
    ensures |RleScan(mask[..j]).records| <= |RleEncode(mask)|
    decreases |mask| - j
  {
    if j == |mask| {
      assert mask[..j] == mask;
    } else {
      assert mask[..j + 1][..j] == mask[..j];
      RleScanMonotone(mask, j + 1);
    }
  }

  /**
   * Stores one RLE record at alphaIndex: the run length in the low 7 bits, bit 7
   * set for an opaque run. A write past the end of the buffer is the panic, and
   * stores nothing.
   */
  method WriteRecord(alpha: array<byte>, alphaIndex: nat, alphaLength: nat, currentAlpha: bool) returns (stored: bool)
    requires 1 <= alphaLength <= 127 && alphaIndex <= alpha.Length
    modifies alpha
    ensures stored <==> alphaIndex < alpha.Length
    ensures stored ==> alpha[..alphaIndex + 1] == old(alpha[..alphaIndex]) + [Record(alphaLength, currentAlpha)]
    ensures alpha[..] == if stored then old(alpha[..])[alphaIndex := Record(alphaLength, currentAlpha)] else old(alpha[..])
  {
    var ab: byte := alphaLength;
    if currentAlpha {
      SetBitByte(ab, 7);
      ab := SetBit(ab, 7);
    }
    if alphaIndex >= alpha.Length {
      return false;
    }
    alpha[alphaIndex] := ab;
    return true;
  }

  /** Stores a pixel's luma byte when the inclusion rule keeps it. */
  method KeepPixel(pix: array<byte>, pixelIndex: nat, p: byte, keep: bool) returns (nextIndex: nat)
    requires keep ==> pixelIndex < pix.Length
    requires pixelIndex <= pix.Length
    modifies pix
    ensures nextIndex == pixelIndex + (if keep then 1 else 0)
    ensures pix[..nextIndex] == old(pix[..pixelIndex]) + (if keep then [p] else [])
    ensures pix[..] == if keep then old(pix[..])[pixelIndex := p] else old(pix[..])
  {
    nextIndex := pixelIndex;
    if keep {
      pix[nextIndex] := p;
      nextIndex := nextIndex + 1;
    }
  }

  /**
   * The bitmask branch of the loop body, for one pixel of opacity av: set bit
   * 7 - alphaMod of the byte being filled when opaque, store the byte once it
   * holds 8 pixels.
   */
  method BitmaskStep(alpha: array<byte>, alphaIndex: nat, alphaByte: byte, alphaMod: nat, av: bool)
    returns (nextIndex: nat, nextByte: byte, nextMod: nat)
    requires alphaIndex < alpha.Length && alphaMod < 8
    modifies alpha
    ensures nextIndex <= alpha.Length && nextMod < 8
    ensures 8 * nextIndex + nextMod == 8 * alphaIndex + alphaMod + 1
    ensures BitState(alpha[..nextIndex], nextByte, nextMod) == BitStep(BitState(old(alpha[..alphaIndex]), alphaByte, alphaMod), av)
  {
    nextIndex, nextByte, nextMod := alphaIndex, alphaByte, alphaMod;
    SetBitByte(nextByte, 7 - nextMod);
    if av {
      nextByte := SetBit(nextByte, 7 - nextMod);
    }
    nextMod := nextMod + 1;
    if nextMod == 8 {
      nextMod := 0;
      alpha[nextIndex] := nextByte;
      nextByte := 0;
      nextIndex := nextIndex + 1;
      assert alpha[..nextIndex] == old(alpha[..alphaIndex]) + [alpha[alphaIndex]];
    }
  }

  /**
   * The run-length branch of the loop body, for one pixel of opacity av: start a
   * run, extend it, or store the pending run when the opacity changes or when it
   * reaches 127. It fails when a store falls past the end of the buffer.
   */
  method RunStep(alpha: array<byte>, alphaIndex: nat, currentAlpha: bool, alphaLength: nat, av: bool)
    returns (stored: bool, nextIndex: nat, nextAlpha: bool, nextLength: nat)
    requires alphaIndex <= alpha.Length && alphaLength < 127
    modifies alpha
    ensures var t := RleStep(RunState(old(alpha[..alphaIndex]), currentAlpha, alphaLength), av);
      && (stored <==> |t.records| <= alpha.Length)
      && (stored ==> nextIndex <= alpha.Length && RunState(alpha[..nextIndex], nextAlpha, nextLength) == t)
  {
    nextIndex, nextAlpha, nextLength := alphaIndex, currentAlpha, alphaLength;
    if nextLength == 0 {
      nextAlpha := av;
      nextLength := nextLength + 1;
      return true, nextIndex, nextAlpha, nextLength;
    }
    if nextAlpha != av {
      stored := WriteRecord(alpha, nextIndex, nextLength, nextAlpha);
      if !stored {
        return;
      }
      nextIndex := nextIndex + 1;
      nextLength := 1;
      nextAlpha := av;
    } else {
      nextLength := nextLength + 1;
    }
    if nextLength == 127 {
      stored := WriteRecord(alpha, nextIndex, nextLength, nextAlpha);
      if !stored {
        return;
      }
      nextIndex := nextIndex + 1;
      nextLength := 0;
    }
    stored := true;
  }

  /**
   * After the last pixel: store the partially filled bitmask byte, and the
   * pending run. Storing the run past the end of the buffer is the panic.
   */
  method FlushAlpha(alpha: array<byte>, alphaIndex: nat, alphaByte: byte, alphaMod: nat, currentAlpha: bool, alphaLength: nat)
    returns (stored: bool, end: nat)
    requires alphaIndex <= alpha.Length && alphaLength < 127
    requires alphaMod > 0 ==> alphaIndex < alpha.Length && alphaLength == 0
    modifies alpha
    ensures end <= alpha.Length
    ensures alphaMod > 0 ==> stored && alpha[..end] == old(alpha[..alphaIndex]) + [alphaByte]
    ensures alphaMod == 0 ==> (stored <==> alphaLength == 0 || alphaIndex < alpha.Length)
    ensures alphaMod == 0 && stored ==>
      alpha[..end] == old(alpha[..alphaIndex]) + (if alphaLength > 0 then [Record(alphaLength, currentAlpha)] else [])
  {
    end := alphaIndex;
    if alphaMod > 0 {
      alpha[end] := alphaByte;
      end := end + 1;
    }
    if alphaLength > 0 {
      stored := WriteRecord(alpha, end, alphaLength, currentAlpha);
      if !stored {
        return;
      }
      end := end + 1;
    }
    stored := true;
  }

  /**
   * The alpha half of the loop body for pixel i: the bitmask branch or the
   * run-length branch, keeping the writer's state equal to the scan of the
   * mask so far. It fails only in run-length mode, when the mask has more
   * records than the buffer has bytes.
   */
  method StoreOpacity(compress: bool, alpha: array<byte>, ghost mask: seq<bool>, ghost i: nat, av: bool,
                      alphaIndex: nat, alphaByte: byte, alphaMod: nat, currentAlpha: bool, alphaLength: nat)
    returns (stored: bool, nextIndex: nat, nextByte: byte, nextMod: nat, nextAlpha: bool, nextLength: nat)
    requires i < |mask| && av == mask[i] && alpha.Length == (|mask| + 7) / 8
    requires !compress ==> alphaLength == 0 && alphaMod < 8 && 8 * alphaIndex + alphaMod == i
    requires !compress ==> BitState(alpha[..alphaIndex], alphaByte, alphaMod) == BitScan(mask[..i])
    requires compress ==> alphaMod == 0 && alphaIndex <= alpha.Length
    requires compress ==> RunState(alpha[..alphaIndex], currentAlpha, alphaLength) == RleScan(mask[..i])
    modifies alpha
    ensures !stored ==> compress && |RleEncode(mask)| > alpha.Length
    ensures stored && !compress ==> nextLength == 0 && nextMod < 8 && 8 * nextIndex + nextMod == i + 1
    ensures stored && !compress ==> BitState(alpha[..nextIndex], nextByte, nextMod) == BitScan(mask[..i + 1])
    ensures stored && compress ==> nextMod == 0 && nextIndex <= alpha.Length
    ensures stored && compress ==> RunState(alpha[..nextIndex], nextAlpha, nextLength) == RleScan(mask[..i + 1])
  {
    if !compress {
      // bitmask mode: one bit per pixel
      BitScanPrefix(mask, i);
      nextIndex, nextByte, nextMod := BitmaskStep(alpha, alphaIndex, alphaByte, alphaMod, av);
      nextAlpha, nextLength := currentAlpha, alphaLength;
      stored := true;
    } else {
      // run-length mode: extend or close the current run
      RleScanPrefix(mask, i);
      stored, nextIndex, nextAlpha, nextLength := RunStep(alpha, alphaIndex, currentAlpha, alphaLength, av);
      nextByte, nextMod := alphaByte, alphaMod;
      if !stored {
        RleScanMonotone(mask, i + 1);
      }
    }
  }

  /** The two buffers after the first i pixels: the kept luma bytes, and the alpha writer's state in either mode. */
  ghost predicate Filling(f: ImageFormat, opts: ImageOptions, i: nat, kept: seq<byte>, written: seq<byte>,
                          alphaByte: byte, alphaMod: nat, currentAlpha: bool, alphaLength: nat)
    requires i <= |f.alphaMask| == |f.pixelData|
  {
    && kept == PixelSection(opts.uniformHue, opts.excludeMaskedPixels, f.alphaMask[..i], f.pixelData[..i])
    && (!opts.compressAlphaMask ==> alphaLength == 0 && alphaMod < 8 && 8 * |written| + alphaMod == i)
    && (!opts.compressAlphaMask ==> BitState(written, alphaByte, alphaMod) == BitScan(f.alphaMask[..i]))
    && (opts.compressAlphaMask ==> alphaMod == 0)
    && (opts.compressAlphaMask ==> RunState(written, currentAlpha, alphaLength) == RleScan(f.alphaMask[..i]))
  }

  /** The loop body for pixel i: its luma byte, then its opacity. */
  method FillPixel(f: ImageFormat, opts: ImageOptions, pix: array<byte>, alpha: array<byte>, i: nat,
                   pixelIndex: nat, alphaIndex: nat, alphaByte: byte, alphaMod: nat, currentAlpha: bool, alphaLength: nat)
    returns (stored: bool, nextPixel: nat, nextIndex: nat, nextByte: byte, nextMod: nat, nextAlpha: bool, nextLength: nat)
    requires |f.alphaMask| == |f.pixelData| == pix.Length && alpha.Length == (pix.Length + 7) / 8
    requires pix != alpha && i < pix.Length && pixelIndex <= i && alphaIndex <= alpha.Length
    requires Filling(f, opts, i, pix[..pixelIndex], alpha[..alphaIndex], alphaByte, alphaMod, currentAlpha, alphaLength)
    modifies pix, alpha
    ensures !stored ==> opts.compressAlphaMask && |RleEncode(f.alphaMask)| > alpha.Length
    ensures stored ==> nextPixel <= i + 1 && nextIndex <= alpha.Length
    ensures stored ==> Filling(f, opts, i + 1, pix[..nextPixel], alpha[..nextIndex], nextByte, nextMod, nextAlpha, nextLength)
  {
    var compress, uniform, exclude := opts.compressAlphaMask, opts.uniformHue, opts.excludeMaskedPixels;
    var p, av := f.pixelData[i], f.alphaMask[i];
    PixelSectionPrefix(uniform, exclude, f.alphaMask, f.pixelData, i);
    nextPixel := KeepPixel(pix, pixelIndex, p, Included(uniform, exclude, av));
    stored, nextIndex, nextByte, nextMod, nextAlpha, nextLength :=
      StoreOpacity(compress, alpha, f.alphaMask, i, av, alphaIndex, alphaByte, alphaMod, currentAlpha, alphaLength);
  }

  /**
   * The pixel loop of processImageFormat, over the buffers it allocated: each
   * pixel's luma byte is stored when kept, and its opacity goes to the bitmask
   * or the run-length writer. On success the cursors describe the whole mask;
   * a run-length store past the end of the alpha buffer is the panic.
   */
  method FillBuffers(f: ImageFormat, opts: ImageOptions, pix: array<byte>, alpha: array<byte>)
    returns (stored: bool, pixelIndex: nat, alphaIndex: nat, alphaByte: byte, alphaMod: nat, currentAlpha: bool, alphaLength: nat)
    requires |f.alphaMask| == |f.pixelData| == pix.Length && alpha.Length == (pix.Length + 7) / 8
    requires pix != alpha
    modifies pix, alpha
    ensures !stored ==> opts.compressAlphaMask && |RleEncode(f.alphaMask)| > alpha.Length
    ensures stored ==> pixelIndex <= pix.Length && alphaIndex <= alpha.Length
    ensures stored ==> pix[..pixelIndex] == PixelSection(opts.uniformHue, opts.excludeMaskedPixels, f.alphaMask, f.pixelData)
    ensures stored && !opts.compressAlphaMask ==>
      && alphaLength == 0 && (alphaMod > 0 ==> alphaIndex < alpha.Length)
      && BitState(alpha[..alphaIndex], alphaByte, alphaMod) == BitScan(f.alphaMask)
    ensures stored && opts.compressAlphaMask ==>
      alphaMod == 0 && RunState(alpha[..alphaIndex], currentAlpha, alphaLength) == RleScan(f.alphaMask)
  {
    var n := |f.pixelData|;
    ghost var mask, data := f.alphaMask, f.pixelData;
    alphaIndex, alphaMod, alphaByte := 0, 0, 0;
    currentAlpha, alphaLength := false, 0;
    pixelIndex := 0;
    var i := 0;
    while i < n
      invariant 0 <= i <= n && pixelIndex <= i && alphaIndex <= alpha.Length
      invariant Filling(f, opts, i, pix[..pixelIndex], alpha[..alphaIndex], alphaByte, alphaMod, currentAlpha, alphaLength)
    {
      stored, pixelIndex, alphaIndex, alphaByte, alphaMod, currentAlpha, alphaLength :=
        FillPixel(f, opts, pix, alpha, i, pixelIndex, alphaIndex, alphaByte, alphaMod, currentAlpha, alphaLength);
      if !stored {
        return;
      }
      i := i + 1;
    }
    assert mask[..n] == mask && data[..n] == data;
    stored := true;
  }

  /**
   * processImageFormat: allocates the pixel buffer (one byte per pixel) and the
   * alpha buffer ((n + 7) / 8 bytes, for either encoding), fills them in one
   * pass, stores what is still buffered, and returns the filled prefixes.
   */
  method ProcessImageFormat(f: ImageFormat, opts: ImageOptions) returns (r: Result<Sections>)
    requires |f.alphaMask| == |f.pixelData|
    ensures r == SectionsOf(f, opts)
  {
    if f.allOpaque {
      return Ok(Sections(f.pixelData, []));
    }
    var alpha := new byte[(|f.alphaMask| + 7) / 8];
    var pix := new byte[|f.pixelData|];
    var stored, pixelIndex, alphaIndex, alphaByte, alphaMod, currentAlpha, alphaLength := FillBuffers(f, opts, pix, alpha);
    if !stored {
      return Err(IndexOutOfRange);
    }
    // write out the partial byte or the pending run
    stored, alphaIndex := FlushAlpha(alpha, alphaIndex, alphaByte, alphaMod, currentAlpha, alphaLength);
    if !stored {
      return Err(IndexOutOfRange);
    }
    if !opts.compressAlphaMask {
      BitmaskEncodeSpec(f.alphaMask);
    }
    return Ok(Sections(pix[..pixelIndex], alpha[..alphaIndex]));
  }

  // ---------------------------------------------------------------- header and stream

  /**
   * The 32-byte header: the tag "BLUB" big-endian, then little-endian width and
   * height (16 bits) and alpha and pixel section lengths (32 bits), the hue
   * shift, the flags, and 14 reserved zero bytes.
   */
  function HeaderBytes(width: nat, height: nat, alphaLength: nat, pixelLength: nat, hueShift: byte, flags: byte): (h: seq<byte>)
    requires width < Max16 && height < Max16 && alphaLength < Max32 && pixelLength < Max32
    ensures |h| == HeaderSize
  {
    FormatTagSpellsBlub();
    BigEndian32(FormatTag) + LittleEndian16(width) + LittleEndian16(height)
      + LittleEndian32(alphaLength) + LittleEndian32(pixelLength)
      + [hueShift, flags] + Repeat(0, HeaderSize - ReservedOffset)
  }

  /** The header buffer once the tag, the dimensions, the hue shift and the flags are in place. */
  function HeaderPrefix(width: nat, height: nat, hueShift: byte, flags: byte): (h: seq<byte>)
    requires width < Max16 && height < Max16
    ensures |h| == HeaderSize
  {
    FormatTagSpellsBlub();
    var tagged := Splice(Repeat<byte>(0, HeaderSize), 0, BigEndian32(FormatTag));
    Splice(Splice(tagged, 4, LittleEndian16(width)), 6, LittleEndian16(height))[16 := hueShift][17 := flags]
  }

  /**
   * The length fields are still zero after the first writes, and writing them
   * completes the header.
   */
  lemma HeaderFromWrites(width: nat, height: nat, alphaLength: nat, pixelLength: nat, hueShift: byte, flags: byte)
    requires width < Max16 && height < Max16 && alphaLength < Max32 && pixelLength < Max32
    ensures forall i :: 8 <= i < 16 ==> HeaderPrefix(width, height, hueShift, flags)[i] == 0
    ensures
      var marked := HeaderPrefix(width, height, hueShift, flags);
      Splice(Splice(marked, 8, LittleEndian32(alphaLength)), 12, LittleEndian32(pixelLength))
        == HeaderBytes(width, height, alphaLength, pixelLength, hueShift, flags)
  {
    FormatTagSpellsBlub();
    var tagged := Splice(Repeat<byte>(0, HeaderSize), 0, BigEndian32(FormatTag));
    var sized := Splice(Splice(tagged, 4, LittleEndian16(width)), 6, LittleEndian16(height));
    var marked := HeaderPrefix(width, height, hueShift, flags);
    assert marked == sized[16 := hueShift][17 := flags];
    var h := Splice(Splice(marked, 8, LittleEndian32(alphaLength)), 12, LittleEndian32(pixelLength));
    var e := HeaderBytes(width, height, alphaLength, pixelLength, hueShift, flags);
    SpliceAt(Repeat<byte>(0, HeaderSize), 0, BigEndian32(FormatTag));
    SpliceAt(tagged, 4, LittleEndian16(width));
    SpliceAt(Splice(tagged, 4, LittleEndian16(width)), 6, LittleEndian16(height));
    SpliceAt(marked, 8, LittleEndian32(alphaLength));
    SpliceAt(Splice(marked, 8, LittleEndian32(alphaLength)), 12, LittleEndian32(pixelLength));
    forall i | 0 <= i < HeaderSize
      ensures h[i] == e[i]
    {
      if i < 4 {
        assert h[i] == tagged[i] == tagged[0..4][i];
      } else if i < 6 {
        assert h[i] == Splice(tagged, 4, LittleEndian16(width))[4..6][i - 4];
      } else if i < 8 {
        assert h[i] == sized[6..8][i - 6];
      } else if i < 12 {
        assert h[i] == Splice(marked, 8, LittleEndian32(alphaLength))[8..12][i - 8];
      } else if i < 16 {
        assert h[i] == h[12..16][i - 12];
      }
    }
  }

  /** Writing a zero length over zero bytes leaves a buffer as it was. */
  lemma SpliceZeroLength(s: seq<byte>, off: nat)
    requires off + 4 <= |s| && forall i :: off <= i < off + 4 ==> s[i] == 0
    ensures Splice(s, off, LittleEndian32(0)) == s
  {
    var t := Splice(s, off, LittleEndian32(0));
    SpliceAt(s, off, LittleEndian32(0));
    forall i | off <= i < off + 4
      ensures t[i] == s[i]
    {
      assert t[i] == t[off..off + 4][i - off];
    }
  }

  /** The header buffer with the tag, the dimensions (as uint16), the hue shift and the flags written. */
  method NewHeader(imgwidth: nat, imgheight: nat, hueShift: byte, flags: byte) returns (header: array<byte>)
    requires imgwidth < Max16 && imgheight < Max16
    ensures fresh(header)
    ensures header[..] == HeaderPrefix(imgwidth, imgheight, hueShift, flags)
  {
    header := new byte[HeaderSize](_ => 0);
    ghost var zeroed := header[..];
    assert zeroed == Repeat<byte>(0, HeaderSize);
    FormatTagSpellsBlub();
    PutUint32BE(header, 0, FormatTag);
    ghost var tagged := header[..];
    assert imgwidth % Max16 == imgwidth && imgheight % Max16 == imgheight;
    PutUint16LE(header, 4, imgwidth % Max16);
    ghost var widened := header[..];
    assert widened == Splice(tagged, 4, LittleEndian16(imgwidth));
    PutUint16LE(header, 6, imgheight % Max16);
    ghost var sized := header[..];
    assert sized == Splice(widened, 6, LittleEndian16(imgheight));
    header[16] := hueShift;
    ghost var hued := header[..];
    assert hued == sized[16 := hueShift];
    header[17] := flags;
    assert header[..] == hued[17 := flags];
  }

  /**
   * What Encode writes, with the compression of the sections left out: the
   * header, then the alpha section when the alpha mask is used, then the pixel
   * section unless the hue is uniform. The header's alpha length is that of the
   * alpha section unless the image is opaque, and its pixel length that of the
   * pixel section unless the hue is uniform; both are converted with uint32().
   */
  function Encoded(img: SourceImage, opts: ImageOptions): (r: Result<seq<byte>>)
    requires img.Valid()
  {
    if img.width > 65535 || img.height > 65535 then Err(ImageTooLarge)
    else
      var f := FormatOf(img, opts.alphaThreshold);
      match SectionsOf(f, opts)
      case Err(e) => Err(e)
      case Ok(s) =>
        var alphaLength := if f.allOpaque then 0 else |s.alpha| % Max32;
        var pixelLength := if opts.uniformHue then 0 else |s.pixels| % Max32;
        Ok(HeaderBytes(img.width, img.height, alphaLength, pixelLength, opts.hueShift, BuildFlags(opts))
          + (if opts.useAlphaMask then s.alpha else [])
          + (if opts.uniformHue then [] else s.pixels))
  }

  /**
   * Encode: fills the header buffer in place, formats and processes the image,
   * and concatenates the header with the sections the options ask for.
   */
  method Encode(img: SourceImage, opts: ImageOptions) returns (r: Result<seq<byte>>)
    requires img.Valid()
    ensures r == Encoded(img, opts)
  {
    var imgwidth, imgheight := img.width, img.height;
    if imgwidth > 65535 || imgheight > 65535 {
      return Err(ImageTooLarge);
    }
    var header := NewHeader(imgwidth, imgheight, opts.hueShift, BuildFlags(opts));
    ghost var marked: seq<byte> := header[..];
    var imgf := FormatImage(img, opts);
    var sections := ProcessImageFormat(imgf, opts);
    if sections.Err? {
      return Err(sections.failure);
    }
    var pixd, alphad := sections.value.pixels, sections.value.alpha;
    ghost var alphaLength, pixelLength := 0, 0;
    HeaderFromWrites(imgwidth, imgheight, |alphad| % Max32, |pixd| % Max32, opts.hueShift, BuildFlags(opts));
    HeaderFromWrites(imgwidth, imgheight, 0, 0, opts.hueShift, BuildFlags(opts));
    if !imgf.allOpaque {
      alphaLength := |alphad| % Max32;
      PutUint32LE(header, 8, |alphad| % Max32);
    } else {
      SpliceZeroLength(marked, 8);
    }
    ghost var lengthed := header[..];
    assert lengthed == Splice(marked, 8, LittleEndian32(alphaLength));
    SpliceAt(marked, 8, LittleEndian32(alphaLength));
    if !opts.uniformHue {
      pixelLength := |pixd| % Max32;
      PutUint32LE(header, 12, |pixd| % Max32);
    } else {
      SpliceZeroLength(lengthed, 12);
    }
    assert header[..] == Splice(lengthed, 12, LittleEndian32(pixelLength));
    HeaderFromWrites(imgwidth, imgheight, alphaLength, pixelLength, opts.hueShift, BuildFlags(opts));
    ghost var expected := HeaderBytes(imgwidth, imgheight, alphaLength, pixelLength, opts.hueShift, BuildFlags(opts));
    assert imgf == FormatOf(img, opts.alphaThreshold) && SectionsOf(imgf, opts) == Ok(Sections(pixd, alphad));
    assert header[..] == expected;
    var out := header[..];
    ghost var withAlpha := expected + (if opts.useAlphaMask then alphad else []);
    if opts.useAlphaMask {
      out := out + alphad;
    } else {
      assert withAlpha == expected;
    }
    assert out == withAlpha;
    if !opts.uniformHue {
      out := out + pixd;
    } else {
      assert withAlpha + [] == withAlpha;
    }
    return Ok(out);
  }
}
