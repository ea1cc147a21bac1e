/**
 * The encoder and the decoder side by side: the header round trip, the image
 * round trip for images that carry their alpha section, and the inputs on which
 * the two disagree as written (an opaque image, an alpha section left out, an
 * RLE section that does not fit its buffer).
 */
module Codec {
  import opened Bits
  import opened Wire
  import opened Data
  import opened Types
  import opened AlphaMask
  import opened PixelSamples
  import opened Encoder
  import opened Decoder

  // ---------------------------------------------------------------- header

  /** Stacking no more rows of no wider rows covers no more pixels. */
  lemma {:induction false} RowStartMonotone(h1: nat, h2: nat, w1: nat, w2: nat)
    requires h1 <= h2 && w1 <= w2
    ensures RowStart(h1, w1) <= RowStart(h2, w2)
    decreases h2
  {
    if h1 == h2 && h2 > 0 {
      RowStartMonotone(h1 - 1, h2 - 1, w1, w2);
    } else if h1 < h2 {
      RowStartMonotone(h1, h2 - 1, w1, w2);
    }
  }

  /** An image within the 16-bit size limit has fewer than 2^32 pixels. */
  lemma AreaBound(width: nat, height: nat)
    requires width < Max16 && height < Max16
    ensures width * height < Max32
  {
    RowStartArea(height, width);
    RowStartArea(Max16 - 1, Max16 - 1);
    RowStartMonotone(height, Max16 - 1, width, Max16 - 1);
  }

  /** The flag byte is 0x80 for the RLE alpha mask plus 0x40 for leaving masked pixels out. */
  lemma BuildFlagsValue(opts: ImageOptions)
    ensures BuildFlags(opts) ==
      (if opts.compressAlphaMask then FlagCompressAlpha else 0) + (if opts.excludeMaskedPixels then FlagExcludeMaskedPixels else 0)
  {
    var expected := (if opts.compressAlphaMask then 128 else 0) + (if opts.excludeMaskedPixels then 64 else 0);
    var flags := BuildFlags(opts);
    forall k: nat | k < 8
      ensures BitAt(flags, k) == BitAt(expected, k)
    {
      assert BitAt(128, 7) && !BitAt(128, 6) && BitAt(64, 6) && !BitAt(64, 7);
      assert BitAt(192, 7) && BitAt(192, 6) && !BitAt(0, 7) && !BitAt(0, 6);
      if k < 6 {
        assert !BitAt(expected, k) by {
          assert !BitAt(0, k) && !BitAt(64, k) && !BitAt(128, k) && !BitAt(192, k) by {
            LowBitsClear(k);
          }
        }
      }
    }
    assert Pow2(8) == 256;
    BitsDetermine(flags, expected, 8);
  }

  /**
   * The six low bits of the four flag combinations are clear. BitAt on a
   * literal unfolds only for a known bit position, hence one branch per k.
   */
  lemma LowBitsClear(k: nat)
    requires k < 6
    ensures !BitAt(0, k) && !BitAt(64, k) && !BitAt(128, k) && !BitAt(192, k)
  {
    if k == 0 {
    } else if k == 1 {
    } else if k == 2 {
    } else if k == 3 {
    } else if k == 4 {
    } else {
    }
  }

  /**
   * Parsing a header Encode builds gives back its dimensions, lengths, hue
   * shift and both flags, whatever follows it; the mask and hue options are
   * inferred from the lengths and the threshold reads as 0.
   */
  lemma HeaderRoundTrip(width: nat, height: nat, alphaLength: nat, pixelLength: nat, hueShift: byte, opts: ImageOptions, rest: seq<byte>)
    requires width < Max16 && height < Max16 && alphaLength < Max32 && pixelLength < Max32
    ensures DecodeConfig(HeaderBytes(width, height, alphaLength, pixelLength, hueShift, BuildFlags(opts)) + rest) ==
      Ok(ImageConfig(
        ImageOptions(hueShift, 0, alphaLength > 0, opts.compressAlphaMask, pixelLength == 0, opts.excludeMaskedPixels),
        width, height, alphaLength, pixelLength))
  {
    var flags := BuildFlags(opts);
    var h := HeaderBytes(width, height, alphaLength, pixelLength, hueShift, flags);
    var s := h + rest;
    FormatTagSpellsBlub();
    assert s[..HeaderSize] == h;
    assert h[0..4] == BigEndian32(FormatTag);
    assert h[4..6] == LittleEndian16(width) && h[6..8] == LittleEndian16(height);
    assert h[8..12] == LittleEndian32(alphaLength) && h[12..16] == LittleEndian32(pixelLength);
    assert h[16] == hueShift && h[17] == flags;
    BigEndian32RoundTrip(FormatTag, h[0..4]);
    LittleEndian16RoundTrip(width, h[4..6]);
    LittleEndian16RoundTrip(height, h[6..8]);
    LittleEndian32RoundTrip(alphaLength, h[8..12]);
    LittleEndian32RoundTrip(pixelLength, h[12..16]);
  }

  /**
   * Conversely, a header DecodeConfig accepts is rebuilt byte for byte from
   * the fields it parsed and its own flag byte exactly when its 14 reserved
   * bytes are zero.
   */
  lemma HeaderRebuild(stream: seq<byte>)
    requires DecodeConfig(stream).Ok?
    ensures
      var c := DecodeConfig(stream).value;
      var h := HeaderBytes(c.width, c.height, c.alphaLength, c.pixelLength, c.options.hueShift, stream[17]);
      && h[..ReservedOffset] == stream[..ReservedOffset]
      && (h == stream[..HeaderSize] <==> forall i :: ReservedOffset <= i < HeaderSize ==> stream[i] == 0)
  {
    var c := DecodeConfig(stream).value;
    var h := HeaderBytes(c.width, c.height, c.alphaLength, c.pixelLength, c.options.hueShift, stream[17]);
    var header := stream[..HeaderSize];
    FormatTagSpellsBlub();
    BigEndian32RoundTrip(FormatTag, header[0..4]);
    LittleEndian16RoundTrip(c.width, header[4..6]);
    LittleEndian16RoundTrip(c.height, header[6..8]);
    LittleEndian32RoundTrip(c.alphaLength, header[8..12]);
    LittleEndian32RoundTrip(c.pixelLength, header[12..16]);
    assert h[0..4] == header[0..4] && h[4..6] == header[4..6] && h[6..8] == header[6..8];
    assert h[8..12] == header[8..12] && h[12..16] == header[12..16];
    forall i | 0 <= i < ReservedOffset
      ensures h[i] == header[i]
    {
      if i < 4 {
        assert h[i] == h[0..4][i];
      } else if i < 6 {
        assert h[i] == h[4..6][i - 4];
      } else if i < 8 {
        assert h[i] == h[6..8][i - 6];
      } else if i < 12 {
        assert h[i] == h[8..12][i - 8];
      } else if i < 16 {
        assert h[i] == h[12..16][i - 12];
      }
    }
    assert forall i :: ReservedOffset <= i < HeaderSize ==> h[i] == 0;
  }

  /**
   * DecodeConfig reads nothing from the reserved bytes nor from the six low
   * bits of the flag byte: headers that agree elsewhere parse alike.
   */
  lemma ConfigIgnoresReserved(s1: seq<byte>, s2: seq<byte>)
    requires |s1| >= HeaderSize && |s2| >= HeaderSize
    requires s1[..17] == s2[..17]
    requires BitAt(s1[17], CompressAlphaBit) == BitAt(s2[17], CompressAlphaBit)
    requires BitAt(s1[17], ExcludeMaskedPixelsBit) == BitAt(s2[17], ExcludeMaskedPixelsBit)
    ensures DecodeConfig(s1) == DecodeConfig(s2)
  {
    var h1, h2 := s1[..HeaderSize], s2[..HeaderSize];
    assert h1[0..4] == s1[..17][0..4] == h2[0..4];
    assert h1[4..6] == s1[..17][4..6] == h2[4..6];
    assert h1[6..8] == s1[..17][6..8] == h2[6..8];
    assert h1[8..12] == s1[..17][8..12] == h2[8..12];
    assert h1[12..16] == s1[..17][12..16] == h2[12..16];
    assert h1[16] == s1[..17][16] == h2[16];
  }

  // ---------------------------------------------------------------- image round trip

  /**
   * The pixels a decoder should give back for a mask and its luma bytes: each
   * with the opacity of the mask, and its own luma when the inclusion rule
   * keeps it, else 255, coloured by the hue shift.
   */
  function Restored(uniform: bool, exclude: bool, hueShift: byte, tint: HueTint, mask: seq<bool>, luma: seq<byte>): (px: seq<RGBA>)
    requires |mask| == |luma|
    ensures |px| == |mask|
  {
    seq(|mask|, i requires 0 <= i < |mask| =>
      PixelColor(if Included(uniform, exclude, mask[i]) then luma[i] else 255, mask[i], hueShift, tint))
  }

  /** The same for a source image: every pixel's own opacity and luma as colorToGray computes them. */
  function Expected(img: SourceImage, opts: ImageOptions, tint: HueTint): (px: seq<RGBA>)
    ensures |px| == |img.pixels|
  {
    seq(|img.pixels|, i requires 0 <= i < |img.pixels| =>
      var g := ColorToGray(img.pixels[i], opts.alphaThreshold);
      PixelColor(if Included(opts.uniformHue, opts.excludeMaskedPixels, g.isOpaque) then g.luma else 255, g.isOpaque, opts.hueShift, tint))
  }

  lemma ExpectedRestored(img: SourceImage, opts: ImageOptions, tint: HueTint)
    ensures Expected(img, opts, tint) ==
      Restored(opts.uniformHue, opts.excludeMaskedPixels, opts.hueShift, tint, MaskOf(img, opts.alphaThreshold), LumaOf(img, opts.alphaThreshold))
  {
  }

  /**
   * The alpha section of an image that is not opaque is non-empty, fits the
   * (n + 7) / 8 bytes of its buffer, and describes the mask in its first n
   * entries in either encoding.
   */
  lemma AlphaSectionStream(f: ImageFormat, opts: ImageOptions)
    requires |f.alphaMask| == |f.pixelData| && |f.alphaMask| > 0
    requires !f.allOpaque && SectionsOf(f, opts).Ok?
    ensures var alpha := SectionsOf(f, opts).value.alpha;
      && 0 < |alpha| <= (|f.alphaMask| + 7) / 8
      && |f.alphaMask| <= |MaskStream(opts.compressAlphaMask, alpha)|
      && MaskStream(opts.compressAlphaMask, alpha)[..|f.alphaMask|] == f.alphaMask
  {
    var mask := f.alphaMask;
    if opts.compressAlphaMask {
      RleEncodeSpec(mask);
      assert Flatten([]) == [];
      assert mask[..|mask|] == mask;
    } else {
      BitmaskRoundTrip(mask);
    }
  }

  /**
   * Decoding a pixel section against the mask it was filtered by gives each
   * pixel its own luma when kept and 255 otherwise. The decoder's hue option
   * may read as uniform where the encoder's was not, but only when no pixel
   * was kept, and then both give 255 everywhere.
   */
  lemma DecodeSection(uniform: bool, exclude: bool, hueShift: byte, tint: HueTint, mask: seq<bool>, luma: seq<byte>, decodedUniform: bool)
    requires |mask| == |luma|
    requires decodedUniform == uniform || (decodedUniform && CountIncluded(uniform, exclude, mask) == 0)
    ensures
      var pix := PixelSection(uniform, exclude, mask, luma);
      && CountIncluded(decodedUniform, exclude, mask) <= |pix|
      && DecodePixels(decodedUniform, exclude, hueShift, tint, mask, pix) == Restored(uniform, exclude, hueShift, tint, mask, luma)
  {
    var pix := PixelSection(uniform, exclude, mask, luma);
    PixelSectionLength(uniform, exclude, mask, luma);
    PixelSectionLength(decodedUniform, exclude, mask, luma);
    forall i | 0 <= i < |mask|
      ensures DecodePixels(decodedUniform, exclude, hueShift, tint, mask, pix)[i] ==
                PixelColor(if Included(uniform, exclude, mask[i]) then luma[i] else 255, mask[i], hueShift, tint)
    {
      DecodePixelsAt(decodedUniform, exclude, hueShift, tint, mask, pix, i);
      if decodedUniform == uniform {
        if Included(uniform, exclude, mask[i]) {
          PixelSectionAt(uniform, exclude, mask, luma, i);
        }
      } else {
        NoneIncluded(uniform, exclude, mask, i);
      }
    }
  }

  /**
   * The sizes of the two sections: an opaque image keeps every luma byte and
   * has no alpha section; otherwise the alpha section is non-empty and fits
   * its (n + 7) / 8-byte buffer, and the pixel section is never longer than
   * the image.
   */
  lemma SectionSizes(f: ImageFormat, opts: ImageOptions)
    requires |f.alphaMask| == |f.pixelData| && SectionsOf(f, opts).Ok?
    ensures var s := SectionsOf(f, opts).value;
      && |s.alpha| <= (|f.alphaMask| + 7) / 8 && |s.pixels| <= |f.alphaMask|
      && (f.allOpaque ==> s.alpha == [] && s.pixels == f.pixelData)
      && (!f.allOpaque && |f.alphaMask| > 0 ==> 0 < |s.alpha|)
  {
    PixelSectionLength(opts.uniformHue, opts.excludeMaskedPixels, f.alphaMask, f.pixelData);
    if !f.allOpaque && |f.alphaMask| > 0 {
      AlphaSectionStream(f, opts);
    }
  }

  /** Encode succeeds only within the size limit and when the sections could be built. */
  lemma EncodedOk(img: SourceImage, opts: ImageOptions)
    requires img.Valid() && Encoded(img, opts).Ok?
    ensures img.width < Max16 && img.height < Max16
    ensures SectionsOf(FormatOf(img, opts.alphaThreshold), opts).Ok?
  {
  }

  /**
   * A length below 2^32 survives Go's uint32 conversion. Stated apart so that
   * EncodedLayout's proof instantiates it for just the two section lengths.
   */
  lemma ModulusOfSmall(x: nat)
    requires x < Max32
    ensures x % Max32 == x
  {
  }

  /**
   * Conversely, within the size limit and with both sections built, Encode
   * writes the header, with lengths that need no truncation, then the alpha
   * section when the mask is used, then the pixel section unless the hue is
   * uniform.
   */
  lemma EncodedLayout(img: SourceImage, opts: ImageOptions)
    requires img.Valid() && img.width < Max16 && img.height < Max16
    requires SectionsOf(FormatOf(img, opts.alphaThreshold), opts).Ok?
    ensures
      var f := FormatOf(img, opts.alphaThreshold);
      var s := SectionsOf(f, opts).value;
      var alphaLength := if f.allOpaque then 0 else |s.alpha|;
      var pixelLength := if opts.uniformHue then 0 else |s.pixels|;
      && |img.pixels| < Max32 && alphaLength < Max32 && pixelLength < Max32
      && Encoded(img, opts) == Ok(
           HeaderBytes(img.width, img.height, alphaLength, pixelLength, opts.hueShift, BuildFlags(opts))
             + (if opts.useAlphaMask then s.alpha else []) + (if opts.uniformHue then [] else s.pixels))
  {
    var f := FormatOf(img, opts.alphaThreshold);
    var s := SectionsOf(f, opts).value;
    AreaBound(img.width, img.height);
    SectionSizes(f, opts);
    var alphaLength := if f.allOpaque then 0 else |s.alpha|;
    var pixelLength := if opts.uniformHue then 0 else |s.pixels|;
    var n := |img.pixels|;
    assert (n + 7) / 8 <= n + 1;
    assert |s.alpha| < Max32 && |s.pixels| < Max32;
    ModulusOfSmall(|s.alpha|);
    ModulusOfSmall(|s.pixels|);
    assert (if f.allOpaque then 0 else |s.alpha| % Max32) == alphaLength;
    assert (if opts.uniformHue then 0 else |s.pixels| % Max32) == pixelLength;
  }

  /**
   * A stream laid out as Encode lays it out, with a non-empty alpha section,
   * is decoded from that alpha section and the pixel section after it; a pixel
   * section of length 0 reads as a uniform hue.
   */
  lemma DecodeWritten(width: nat, height: nat, hueShift: byte, opts: ImageOptions, alpha: seq<byte>, pixd: seq<byte>, tint: HueTint)
    requires width < Max16 && height < Max16 && 0 < |alpha| < Max32 && |pixd| < Max32
    ensures Decoded(HeaderBytes(width, height, |alpha|, |pixd|, hueShift, BuildFlags(opts)) + (alpha + pixd), tint) ==
      ImageData(
        ImageConfig(ImageOptions(hueShift, 0, true, opts.compressAlphaMask, |pixd| == 0, opts.excludeMaskedPixels), width, height, |alpha|, |pixd|),
        pixd, alpha, tint)
  {
    var payload := alpha + pixd;
    HeaderRoundTrip(width, height, |alpha|, |pixd|, hueShift, opts, payload);
    var out := HeaderBytes(width, height, |alpha|, |pixd|, hueShift, BuildFlags(opts)) + payload;
    assert out[HeaderSize..] == payload;
    assert payload[..|alpha|] == alpha;
    assert payload[|alpha|..|alpha| + |pixd|] == pixd;
    assert Repeat<byte>(0, 0) == [];
  }

  /**
   * decodeImageData on a pixel section and an alpha section whose stream
   * starts with the mask restores every pixel.
   */
  lemma ImageDataOfMask(conf: ImageConfig, uniform: bool, mask: seq<bool>, luma: seq<byte>, alpha: seq<byte>, tint: HueTint)
    requires |mask| == |luma| == conf.width * conf.height
    requires |mask| <= |MaskStream(conf.options.compressAlphaMask, alpha)|
    requires MaskStream(conf.options.compressAlphaMask, alpha)[..|mask|] == mask
    requires conf.options.uniformHue == uniform ||
               (conf.options.uniformHue && CountIncluded(uniform, conf.options.excludeMaskedPixels, mask) == 0)
    ensures ImageData(conf, PixelSection(uniform, conf.options.excludeMaskedPixels, mask, luma), alpha, tint) ==
      Ok(Raster(conf.width, conf.height, Restored(uniform, conf.options.excludeMaskedPixels, conf.options.hueShift, tint, mask, luma)))
  {
    DecodeSection(uniform, conf.options.excludeMaskedPixels, conf.options.hueShift, tint, mask, luma, conf.options.uniformHue);
  }

  /**
   * The same at the level of the sections: a header and a payload written
   * from the sections of a format that is not opaque, with the alpha section
   * included, decode to the restored pixels of the format.
   */
  lemma SectionsRoundTrip(width: nat, height: nat, f: ImageFormat, opts: ImageOptions, tint: HueTint)
    requires width < Max16 && height < Max16 && |f.alphaMask| == |f.pixelData| == width * height > 0
    requires !f.allOpaque && SectionsOf(f, opts).Ok?
    ensures
      var s := SectionsOf(f, opts).value;
      var pixd := if opts.uniformHue then [] else s.pixels;
      && |s.alpha| < Max32 && |pixd| < Max32
      && Decoded(HeaderBytes(width, height, |s.alpha|, |pixd|, opts.hueShift, BuildFlags(opts)) + (s.alpha + pixd), tint) ==
           Ok(Raster(width, height, Restored(opts.uniformHue, opts.excludeMaskedPixels, opts.hueShift, tint, f.alphaMask, f.pixelData)))
  {
    var s := SectionsOf(f, opts).value;
    var uniform, exclude := opts.uniformHue, opts.excludeMaskedPixels;
    AreaBound(width, height);
    AlphaSectionStream(f, opts);
    PixelSectionLength(uniform, exclude, f.alphaMask, f.pixelData);
    var pixd: seq<byte> := if uniform then [] else s.pixels;
    DecodeWritten(width, height, opts.hueShift, opts, s.alpha, pixd, tint);
    var conf := ImageConfig(ImageOptions(opts.hueShift, 0, true, opts.compressAlphaMask, |pixd| == 0, exclude), width, height, |s.alpha|, |pixd|);
    assert pixd == PixelSection(uniform, exclude, f.alphaMask, f.pixelData);
    ImageDataOfMask(conf, uniform, f.alphaMask, f.pixelData, s.alpha, tint);
  }

  /**
   * Encoding then decoding an image gives back its expected pixels when the
   * alpha section is written and the image is not opaque.
   */
  lemma RoundTrip(img: SourceImage, opts: ImageOptions, tint: HueTint)
    requires img.Valid() && opts.useAlphaMask && !FormatOf(img, opts.alphaThreshold).allOpaque
    requires Encoded(img, opts).Ok?
    ensures Decoded(Encoded(img, opts).value, tint) == Ok(Raster(img.width, img.height, Expected(img, opts, tint)))
  {
    var f := FormatOf(img, opts.alphaThreshold);
    EncodedOk(img, opts);
    EncodedLayout(img, opts);
    var s := SectionsOf(f, opts).value;
    assert |f.alphaMask| > 0;
    var pixd: seq<byte> := if opts.uniformHue then [] else s.pixels;
    var header := HeaderBytes(img.width, img.height, |s.alpha|, |pixd|, opts.hueShift, BuildFlags(opts));
    assert Encoded(img, opts).value == header + s.alpha + pixd;
    assert header + s.alpha + pixd == header + (s.alpha + pixd);
    SectionsRoundTrip(img.width, img.height, f, opts, tint);
    ExpectedRestored(img, opts, tint);
  }

  /**
   * An image with no pixels round-trips whatever the options: it counts as
   * opaque, so both sections are empty, and the decoder's loops never run, so
   * nothing is read from the absent alpha section.
   */
  lemma EmptyRoundTrip(img: SourceImage, opts: ImageOptions, tint: HueTint)
    requires img.Valid() && img.width < Max16 && img.height < Max16 && |img.pixels| == 0
    ensures Encoded(img, opts).Ok?
    ensures Decoded(Encoded(img, opts).value, tint) == Ok(Raster(img.width, img.height, Expected(img, opts, tint)))
  {
    var f := FormatOf(img, opts.alphaThreshold);
    assert f.allOpaque && f.pixelData == [];
    EncodedLayout(img, opts);
    var header := HeaderBytes(img.width, img.height, 0, 0, opts.hueShift, BuildFlags(opts));
    assert Encoded(img, opts).value == header + [] + [];
    EmptyStream(img.width, img.height, opts.hueShift, opts, tint);
  }

  /** A header announcing two empty sections, for an image of no pixels, decodes to the empty image. */
  lemma EmptyStream(width: nat, height: nat, hueShift: byte, opts: ImageOptions, tint: HueTint)
    requires width < Max16 && height < Max16 && width * height == 0
    ensures Decoded(HeaderBytes(width, height, 0, 0, hueShift, BuildFlags(opts)) + [] + [], tint) == Ok(Raster(width, height, []))
  {
    var out := HeaderBytes(width, height, 0, 0, hueShift, BuildFlags(opts)) + [] + [];
    assert out == HeaderBytes(width, height, 0, 0, hueShift, BuildFlags(opts)) + [];
    HeaderRoundTrip(width, height, 0, 0, hueShift, opts, []);
    assert out[HeaderSize..] == [];
    assert Repeat<byte>(0, 0) == [];
  }

  // ---------------------------------------------------------------- where the two sides disagree

  /**
   * An opaque image is written without an alpha section and with alpha length
   * 0, and the decoder, having no all-opaque fallback, cannot read it back.
   */
  lemma OpaqueImageUndecodable(img: SourceImage, opts: ImageOptions, tint: HueTint)
    requires img.Valid() && img.width < Max16 && img.height < Max16 && |img.pixels| > 0
    requires FormatOf(img, opts.alphaThreshold).allOpaque
    ensures Encoded(img, opts).Ok?
    ensures Decoded(Encoded(img, opts).value, tint) == Err(IndexOutOfRange)
  {
    var f := FormatOf(img, opts.alphaThreshold);
    EncodedOk(img, opts);
    EncodedLayout(img, opts);
    var s := SectionsOf(f, opts).value;
    var pixelLength := if opts.uniformHue then 0 else |s.pixels|;
    var pixd: seq<byte> := if opts.uniformHue then [] else s.pixels;
    var out := Encoded(img, opts).value;
    assert out == HeaderBytes(img.width, img.height, 0, pixelLength, opts.hueShift, BuildFlags(opts)) + pixd;
    HeaderRoundTrip(img.width, img.height, 0, pixelLength, opts.hueShift, opts, pixd);
    var conf := DecodeConfig(out).value;
    assert out[HeaderSize..] == pixd;
    var pixelData := if pixelLength == 0 then Repeat<byte>(0, pixelLength) else pixd[0..pixelLength];
    assert Decoded(out, tint) == ImageData(conf, pixelData, Repeat<byte>(0, 0), tint);
    assert Repeat<byte>(0, 0) == [];
    NoOpaqueFallback(conf, pixelData, tint);
  }

  /**
   * An image that is not opaque, written without its alpha section, still
   * announces its alpha length, so the decoder takes the front of the payload
   * for the alpha section. With a uniform hue the payload is empty and the mask
   * is unreadable; otherwise the pixel section is either too short for the mask
   * or consumed as the mask, and then the pixel section is missing.
   */
  lemma OmittedMaskUnreadable(img: SourceImage, opts: ImageOptions, tint: HueTint)
    requires img.Valid() && !opts.useAlphaMask && !FormatOf(img, opts.alphaThreshold).allOpaque
    requires Encoded(img, opts).Ok?
    ensures var r := Decoded(Encoded(img, opts).value, tint);
      r == Err(AlphaMaskUnreadable) || r == Err(PixelDataUnreadable)
    ensures opts.uniformHue ==> Decoded(Encoded(img, opts).value, tint) == Err(AlphaMaskUnreadable)
  {
    var f := FormatOf(img, opts.alphaThreshold);
    EncodedOk(img, opts);
    EncodedLayout(img, opts);
    assert |f.alphaMask| > 0;
    SectionSizes(f, opts);
    var s := SectionsOf(f, opts).value;
    var pixd: seq<byte> := if opts.uniformHue then [] else s.pixels;
    assert Encoded(img, opts).value ==
      HeaderBytes(img.width, img.height, |s.alpha|, |pixd|, opts.hueShift, BuildFlags(opts)) + [] + pixd;
    OmittedStream(img.width, img.height, opts.hueShift, opts, |s.alpha|, pixd, tint);
  }

  /**
   * A header announcing a mask, followed only by a payload of pixel bytes,
   * fails in one of the two section reads, and in the first when there are no
   * pixel bytes.
   */
  lemma OmittedStream(width: nat, height: nat, hueShift: byte, opts: ImageOptions, alphaLength: nat, pixd: seq<byte>, tint: HueTint)
    requires width < Max16 && height < Max16 && 0 < alphaLength < Max32 && |pixd| < Max32
    ensures var r := Decoded(HeaderBytes(width, height, alphaLength, |pixd|, hueShift, BuildFlags(opts)) + [] + pixd, tint);
      r == Err(AlphaMaskUnreadable) || r == Err(PixelDataUnreadable)
    ensures pixd == [] ==>
      Decoded(HeaderBytes(width, height, alphaLength, |pixd|, hueShift, BuildFlags(opts)) + [] + pixd, tint) == Err(AlphaMaskUnreadable)
  {
    var out := HeaderBytes(width, height, alphaLength, |pixd|, hueShift, BuildFlags(opts)) + [] + pixd;
    assert out == HeaderBytes(width, height, alphaLength, |pixd|, hueShift, BuildFlags(opts)) + pixd;
    HeaderRoundTrip(width, height, alphaLength, |pixd|, hueShift, opts, pixd);
    assert out[HeaderSize..] == pixd;
  }

  /** When neither option drops pixels, every pixel is kept. */
  lemma {:induction false} AllIncluded(mask: seq<bool>)
    ensures CountIncluded(false, false, mask) == |mask|
    decreases |mask|
  {
    if mask != [] {
      AllIncluded(mask[..|mask| - 1]);
    }
  }

  /**
   * The second outcome above, for every image that is not opaque in bitmask
   * mode with neither option dropping pixels: the pixel section (n bytes) is
   * at least as long as the announced mask ((n + 7) / 8 bytes), so the decoder
   * reads the mask out of it and then finds no pixel section.
   */
  lemma OmittedMaskMisread(img: SourceImage, opts: ImageOptions, tint: HueTint)
    requires img.Valid() && img.width < Max16 && img.height < Max16
    requires !opts.useAlphaMask && !opts.compressAlphaMask && !opts.uniformHue && !opts.excludeMaskedPixels
    requires !FormatOf(img, opts.alphaThreshold).allOpaque
    ensures Encoded(img, opts).Ok?
    ensures Decoded(Encoded(img, opts).value, tint) == Err(PixelDataUnreadable)
  {
    var f := FormatOf(img, opts.alphaThreshold);
    var n := |f.alphaMask|;
    assert n > 0;
    PixelSectionLength(false, false, f.alphaMask, f.pixelData);
    AllIncluded(f.alphaMask);
    EncodedLayout(img, opts);
    var s := SectionsOf(f, opts).value;
    assert |s.alpha| == (n + 7) / 8 <= n == |s.pixels|;
    assert Encoded(img, opts).value ==
      HeaderBytes(img.width, img.height, |s.alpha|, |s.pixels|, opts.hueShift, BuildFlags(opts)) + [] + s.pixels;
    MisreadStream(img.width, img.height, opts.hueShift, opts, |s.alpha|, s.pixels, tint);
  }

  /** A header announcing a mask, followed only by a payload no shorter than that mask, lacks its pixel section. */
  lemma MisreadStream(width: nat, height: nat, hueShift: byte, opts: ImageOptions, alphaLength: nat, pixd: seq<byte>, tint: HueTint)
    requires width < Max16 && height < Max16 && 0 < alphaLength <= |pixd| < Max32
    ensures Decoded(HeaderBytes(width, height, alphaLength, |pixd|, hueShift, BuildFlags(opts)) + [] + pixd, tint) == Err(PixelDataUnreadable)
  {
    var out := HeaderBytes(width, height, alphaLength, |pixd|, hueShift, BuildFlags(opts)) + [] + pixd;
    assert out == HeaderBytes(width, height, alphaLength, |pixd|, hueShift, BuildFlags(opts)) + pixd;
    HeaderRoundTrip(width, height, alphaLength, |pixd|, hueShift, opts, pixd);
    assert out[HeaderSize..] == pixd;
  }

  /**
   * Two pixels, one opaque and one transparent, in RLE mode: two records for
   * a buffer of (2 + 7) / 8 = 1 byte, so the encoder's second store is out of
   * range.
   */
  lemma RleBufferOverflow()
    ensures
      var img := SourceImage(2, 1, [Convertible(RGBA(0, 0, 0, 255)), Convertible(RGBA(0, 0, 0, 0))]);
      Encoded(img, ImageOptions(0, 0, true, true, false, false)) == Err(IndexOutOfRange)
  {
    var img := SourceImage(2, 1, [Convertible(RGBA(0, 0, 0, 255)), Convertible(RGBA(0, 0, 0, 0))]);
    var mask := MaskOf(img, 0);
    assert mask == [true, false];
    assert mask[..1] == [true] && [true][..0] == [];
    assert RleScan(mask) == RunState([Record(1, true)], false, 1);
    assert |RleEncode(mask)| == 2;
  }
}
