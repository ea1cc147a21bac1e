# BLUB image codec — a Dafny model

BLUB is a small lossy image format. An image is stored as gray values with a one-bit
opacity per pixel and an optional hue shift. A stream is a 32-byte header followed by a
payload. The header holds:

- the tag `BLUB`, big-endian;
- the little-endian 16-bit width and height;
- the little-endian 32-bit lengths of the alpha section and the pixel section;
- the hue shift and a flag byte;
- 14 reserved zero bytes.

The payload is the alpha section followed by the pixel section. The alpha section
stores the opacity of every pixel in row-major order, in one of two ways:

- a bitmask of 8 pixels per byte, most significant bit first;
- run-length records, where bits 0..6 are the run length and bit 7 is the opacity.

The pixel section holds one gray byte per pixel. Pixels the options exclude are
omitted: all of them when the hue is uniform, and the transparent ones when masked
pixels are excluded.

The model covers the encoder, the decoder and the format constants:

- **Encoder** (`encode.go`):
  - the gray and opacity conversion of each pixel;
  - the flag byte;
  - the image-formatting loop;
  - the section writer, with its fixed-size buffers;
  - the header;
  - the order in which `Encode` puts the sections.
- **Decoder** (`decode.go`):
  - the header parse;
  - the reading of the two sections;
  - the pixel loop of `decodeImageData`.
- **Constants** (`data.go`).

Each imperative operation of the source is a Dafny method proved against a specification function:

- `FormatImage` against `FormatOf`;
- `ProcessImageFormat` against `SectionsOf`;
- `NewHeader` against `HeaderPrefix`;
- `DecodeImageData` against `ImageData`;
- `Decode` against `Decoded`.

The specification functions are in turn related by lemmas:

- **Round trips:**
  - of the header;
  - of both alpha-section encodings;
  - of a whole image, decoded from what the encoder wrote.
- **Canonical form:** the run-length encoding is the only maximal one.
- **Error behaviour** of the code as written.

Modules:

| module | file | contents |
|---|---|---|
| `Bits` | bits.dfy | bit tests and bit setting on naturals |
| `Wire` | wire.dfy | little- and big-endian integer fields and their round trips |
| `Data` | data.dfy | header size, format tag, flag bits |
| `Types` | types.dfy | pixels, images, options, failures, row-major indexing |
| `PixelSamples` | pixels.dfy | which pixels the pixel section keeps, and where |
| `AlphaMask` | alphamask.dfy | the bitmask and run-length alpha sections |
| `Encoder` | encoder.dfy | `encode.go` |
| `Decoder` | decoder.dfy | `decode.go` |
| `Codec` | codec.dfy | properties that relate the encoder and the decoder |

### Runtime failures and byte types

A Go runtime panic, a slice index past the end, is modelled as the result
`Err(IndexOutOfRange)`. Two places can raise it:

- the encoder's run-length buffer;
- the decoder's reads past the end of a section.

A `uint8` is modelled as `byte`, an `int` from 0 to 255. Go's `uint16`/`uint32`
conversions are written out as `% Max16` and `% Max32`.

### Where the code departs from the intended format

The model follows the code in each case:

- **No all-opaque fallback.**
  - An empty alpha section is meant to stand for an all-opaque image.
  - `decodeImageData` (decode.go:117-163) always reads the alpha section.
  - When the encoder omits the alpha section of an all-opaque image (encode.go:160-162), the decoder fails with a slice index out of range (`Codec.OpaqueImageUndecodable`).
- **Alpha length and alpha bytes are keyed on different conditions.**
  - The header's alpha length is written whenever the image is not all opaque (encode.go:45-47).
  - The alpha bytes themselves are written only when `UseAlphaMask` is set (encode.go:61-69).
  - Without `UseAlphaMask` the header therefore announces a section that is absent, and the decoder takes the front of the payload for it. Decoding then always fails with a read error (`Codec.OmittedMaskUnreadable`):
    - with a uniform hue the payload is empty, and the alpha mask is unreadable;
    - otherwise the pixel bytes are too few for the mask, or are read as the mask and leave the pixel section unreadable. The second happens, for instance, in bitmask mode when no pixel is dropped (`Codec.OmittedMaskMisread`).
- **Run-length buffer size.**
  - The run-length writer stores its records in a buffer of (n + 7) / 8 bytes (encode.go:168-169).
  - A mask with more runs than that indexes past the buffer's end (`Codec.RleBufferOverflow`).
- **Zero-length records.** A run-length record with a stored length of 0 decodes as 256 pixels, because the counter is a `uint8` (decode.go:130-140).

## Model

| member | source | states |
|---|---|---|
| `Data.FormatTagSpellsBlub` | data.go:5 | the format tag 0x424C5542 is, big-endian, the bytes `B L U B` |
| `Data.FlagLayout` | data.go:8-9 | the two flags are the single bits 7 and 6; the reserved bytes start at offset 18 and there are 14 of them |
| `Bits.SetBitSpec` | encode.go:84-93 | `x \| 1<<k` has bit k set and every other bit unchanged |
| `Bits.BitsDetermine` | decode.go:121-128 | a byte is determined by its eight bits, so the bits the bitmask reader extracts fix the byte they came from |
| `Wire.LittleEndian16RoundTrip` | encode.go:36-37 | `binary.LittleEndian.Uint16` reads back what `PutUint16` wrote, and conversely |
| `Wire.LittleEndian32RoundTrip` | encode.go:45-51 | `binary.LittleEndian.Uint32` reads back what `PutUint32` wrote, and conversely |
| `Wire.BigEndian32RoundTrip` | encode.go:34 | `binary.BigEndian.Uint32` reads back what `PutUint32` wrote, and conversely |
| `Wire.PutUint32BE` | encode.go:34 | writes the four big-endian bytes of the value at the offset and changes nothing else |
| `Wire.PutUint16LE` | encode.go:36-37 | writes the two little-endian bytes of the value at the offset and changes nothing else |
| `Wire.PutUint32LE` | encode.go:45-51 | writes the four little-endian bytes of the value at the offset and changes nothing else |
| `Encoder.ColorToGray` | encode.go:144-157 | an inconvertible colour is (0, opaque); otherwise the luma is the 299/587/114-weighted mean of r, g and b rounded to nearest, and the pixel is opaque iff its alpha exceeds the threshold |
| `Encoder.BuildFlags` | encode.go:84-93 | bit 7 is set iff the alpha mask is compressed; bit 6 iff masked pixels are excluded; no other bit is set |
| `Codec.BuildFlagsValue` | encode.go:84-93 | the flag byte is `flag_compress_alpha` and/or `flag_exclude_masked_pixels`, summed |
| `Encoder.FormatImage` | encode.go:103-136 | visits the pixels row by row; the mask and the luma are each pixel's conversion in row-major order; `Opaque` holds iff every pixel is opaque |
| `PixelSamples.PixelSectionLength` | encode.go:183-186 | the pixel section has one byte per kept pixel; it is empty when the hue is uniform |
| `PixelSamples.PixelSectionAt` | encode.go:183-186 | a kept pixel's luma sits at the index equal to the number of kept pixels before it |
| `PixelSamples.PixelSectionPrefix` | encode.go:183-186 | one more pixel appends its luma exactly when it is kept |
| `PixelSamples.CountPrefix` | decode.go:142-147 | the count of kept pixels grows by one exactly at a kept pixel and never exceeds the whole mask's count |
| `AlphaMask.PackByteBits` | encode.go:188-200 | in a bitmask byte, pixel t of the group is bit 7 - t; bits after the last pixel are zero |
| `AlphaMask.PackBitsLayout` | encode.go:188-200 | the bitmask has (n + 7) / 8 bytes; pixel i is bit 7 - (i mod 8) of byte i / 8; padding bits are zero |
| `AlphaMask.BitStepKeeps` | encode.go:188-200 | one pixel of the bitmask writer keeps the writer's invariant: full bytes stored, partial byte packing the rest |
| `AlphaMask.BitScanHolds` | encode.go:180-200 | after any prefix of the mask, the bitmask writer's state satisfies that invariant |
| `AlphaMask.BitmaskEncodeSpec` | encode.go:188-241 | the bytes the bitmask writer stores, with its final partial byte flushed, are the packed mask |
| `AlphaMask.BitmaskRoundTrip` | decode.go:121-128 | reading a packed mask bit by bit gives back the mask followed only by fewer than 8 zero padding bits |
| `AlphaMask.BitmaskUnpackRoundTrip` | decode.go:121-128 | every byte string is the packing of its own bits |
| `AlphaMask.Record` | encode.go:208-232 | a record written for a run of 1..127 pixels stores that length in bits 0..6 and the opacity in bit 7 |
| `AlphaMask.RecordFields` | decode.go:130-140 | a record with a non-zero length is the record of its own length and opacity |
| `AlphaMask.ZeroLengthRecordWraps` | decode.go:130-140 | a stored length of 0 decodes as 256 pixels, because of the uint8 counter's wrap-around |
| `AlphaMask.FlattenAppend` | decode.go:130-140 | records decode one after the other: the stream of a concatenation is the concatenation of the streams |
| `AlphaMask.RleScanPrefix` | encode.go:203-233 | the run-length writer handles the mask one pixel at a time |
| `AlphaMask.ScanStep` | encode.go:203-233 | one pixel of the run-length writer keeps its invariant: records valid and maximal, and records plus pending run decode to the mask so far |
| `AlphaMask.RleScanInvariant` | encode.go:180-233 | after any prefix of the mask, the run-length writer satisfies that invariant |
| `AlphaMask.RleEncodeSpec` | encode.go:203-251 | the records written, with the pending run flushed, have lengths 1..127, break a run of one opacity only at 127, and decode back to the mask |
| `AlphaMask.RleCanonical` | encode.go:203-251 | two valid maximal record strings that decode to the same stream are equal, so the writer's output is the only such encoding |
| `AlphaMask.FirstRunNotShorter` | encode.go:222-232 | of two encodings of one stream, the maximal one's first run is at least as long |
| `AlphaMask.RleUniformRun` | encode.go:222-251 | k equal pixels become k / 127 full records and then one record of k mod 127 when that is not zero |
| `AlphaMask.RleRunBoundaries` | encode.go:222-232 | 300, 254 and 255 opaque pixels, and 300 transparent ones, give the expected records |
| `Encoder.KeepPixel` | encode.go:183-186 | appends the pixel's luma to the pixel buffer exactly when the inclusion rule keeps it; no other byte of the buffer changes |
| `Encoder.BitmaskStep` | encode.go:188-200 | one pixel of the bitmask writer, on the buffer: the written bytes and partial byte are one `BitStep` further |
| `Encoder.WriteRecord` | encode.go:208-214 | stores one record at the next index and changes no other byte, or reports the out-of-range write when the buffer is full and leaves it unchanged |
| `Encoder.RunStep` | encode.go:203-233 | one pixel of the run-length writer, on the buffer: the records written are one `RleStep` further, or the buffer overflowed |
| `Encoder.StoreOpacity` | encode.go:188-233 | one pixel's opacity in either alpha mode keeps the buffer equal to the scan of the mask so far; it fails only when the whole mask has more records than the buffer holds |
| `Encoder.FillPixel` | encode.go:180-233 | one pass of processImageFormat's loop body keeps both buffers equal to the sections of the pixels seen so far |
| `Encoder.FillBuffers` | encode.go:168-235 | after the loop the pixel buffer holds the pixel section, and the alpha buffer holds the bitmask or run-length scan of the whole mask; it fails only when the records outgrow the buffer |
| `Encoder.FlushAlpha` | encode.go:238-251 | stores the partial bitmask byte, or the pending run as one last record, or reports the buffer full |
| `Encoder.ProcessImageFormat` | encode.go:159-254 | returns what `SectionsOf` specifies: the luma with no alpha section for an all-opaque image; else the pixel section and the packed bitmask or the run-length records; `IndexOutOfRange` when the records exceed (n + 7) / 8 bytes |
| `Codec.AlphaSectionStream` | encode.go:159-254 | for an image that is not all opaque, the alpha section is non-empty, at most (n + 7) / 8 bytes, and reads back the mask in either mode |
| `Codec.SectionSizes` | encode.go:159-254 | an all-opaque image keeps every luma byte and has no alpha section; otherwise a non-empty image's alpha section is non-empty; the alpha section never exceeds (n + 7) / 8 bytes, nor the pixel section n |
| `Encoder.HeaderBytes` | encode.go:32-51 | the header is 32 bytes |
| `Encoder.HeaderFromWrites` | encode.go:32-51 | the header fields land at their offsets, and the reserved bytes stay zero |
| `Encoder.NewHeader` | encode.go:32-40 | the fresh header holds the tag, the width, the height, the hue shift and the flags, and is zero elsewhere |
| `Encoder.Encode` | encode.go:22-82 | returns `Encoded`: too large an image is an error; otherwise the header, then the alpha bytes when the mask is used, then the pixel bytes unless the hue is uniform; the header's alpha length is set when the image is not all opaque |
| `Codec.EncodedOk` | encode.go:26-30 | a successful encoding had dimensions below 65536 and produced its sections |
| `Codec.EncodedLayout` | encode.go:22-82 | the stream is the header with both section lengths, then the alpha section, then the pixel section |
| `Codec.AreaBound` | encode.go:26-30 | a size-checked image has fewer than 2^32 pixels |
| `Decoder.DecodeConfig` | decode.go:60-100 | empty input is a read error; 1..31 bytes a short header; a wrong tag is an error; otherwise the width, the height, the two lengths and the hue shift are read back; the mask is in use iff the alpha length is non-zero; the hue is uniform iff the pixel length is zero; the flag bits give the two remaining options; the threshold is 0 |
| `Codec.HeaderRoundTrip` | decode.go:60-100 | parsing the header the encoder builds gives back its dimensions, its lengths, its hue shift and its flag options, whatever follows it, as test/decode_test.go:52-73 expects of an encoded image |
| `Codec.HeaderRebuild` | decode.go:60-100 | rebuilding a header from the parsed fields gives back its first 18 bytes, and the whole header exactly when the reserved bytes are zero |
| `Codec.ConfigIgnoresReserved` | decode.go:84-99 | the parse ignores the flag byte's other six bits and the reserved bytes |
| `Decoder.PixelColor` | decode.go:142-161 | the output pixel is gray, or the tint of the gray when the hue shift is non-zero; its alpha is 255 when opaque and 0 otherwise |
| `Decoder.DecodePixelsAt` | decode.go:142-161 | pixel i of the decoded image is the colour of its opacity and of its gray value: the next unread pixel byte when kept, else 255 |
| `Decoder.DecodePixelsPrefix` | decode.go:142-161 | decoding one more pixel appends that pixel's colour |
| `Decoder.ImageData` | decode.go:102-166 | the decoded image has the header's dimensions and width * height pixels; every failure is an index out of range |
| `Decoder.NoOpaqueFallback` | decode.go:117-140 | an image of at least one pixel cannot be decoded from an empty alpha section, in either mode |
| `Decoder.ReadBit` | decode.go:121-128 | reads the next bitmask bit when the section has it, and fails exactly at the end of the section |
| `Decoder.FlattenPrefix` | decode.go:130-140 | the records read so far decode to a prefix of the whole stream |
| `Decoder.ReadRun` | decode.go:130-140 | yields the next pixel of the decoded run-length stream; it fails exactly when the records are used up |
| `Decoder.ReadAlpha` | decode.go:119-140 | the next opacity from either kind of alpha section; fails exactly past the end of the stream |
| `Decoder.ReadGray` | decode.go:142-147 | the next pixel byte when the pixel is kept, else 255; fails exactly when a kept pixel finds the section used up |
| `Decoder.DecodePixel` | decode.go:119-161 | one pass of the inner loop: decodes the next pixel, or fails exactly when the image data fails |
| `Decoder.StoreNext` | decode.go:161 | storing a pixel right after those decoded so far extends them |
| `Decoder.DecodeRow` | decode.go:118-162 | decodes a row of width pixels, stored after the pixels decoded so far, or fails exactly when the image data fails |
| `Decoder.DecodingDone` | decode.go:117-165 | once width * height pixels are decoded, they are the image data |
| `Decoder.DecodeImageData` | decode.go:102-166 | returns `ImageData`: visiting rows then columns, each pixel decodes the next opacity and gray value; a section too short is an index out of range |
| `Decoder.Decode` | decode.go:24-58 | returns `Decoded`: header, then the alpha section when the mask is in use, then the pixel section unless the hue is uniform; a section the stream cannot supply is a read error |
| `Codec.DecodeWritten` | decode.go:24-58 | decoding a header with both lengths, then the alpha and pixel sections, is the image data of those sections |
| `Codec.ExpectedRestored` | encode.go:103-157 | the image expected back from a source image is the one restored from the mask and luma that formatImage computes: each pixel's gray, or 255 where its byte is omitted, with alpha 255 or 0 |
| `Codec.DecodeSection` | decode.go:142-161 | decoding the pixel section restores every kept pixel's luma and gives 255 for omitted ones; this holds even when the header says uniform hue only because no pixel was kept |
| `Codec.ImageDataOfMask` | decode.go:102-166 | an alpha section that reads back the mask, together with the pixel section of that mask, decodes to the restored pixels |
| `Codec.SectionsRoundTrip` | encode.go:159-254 | the sections of an image that is not all opaque, behind their header, decode to its restored pixels |
| `Codec.RoundTrip` | encode.go:22-82 | decoding what Encode writes for a non-opaque image with the alpha mask in use gives the image of each pixel's gray value (255 where omitted), its tint and its thresholded opacity |
| `Codec.EmptyRoundTrip` | encode.go:22-82 | an image with no pixels encodes under any options and decodes to the empty image of its width and height |
| `Codec.EmptyStream` | decode.go:24-58 | a header announcing two empty sections for an image of no pixels decodes to the empty image |
| `Codec.OpaqueImageUndecodable` | encode.go:160-162 | an all-opaque image of at least one pixel encodes, but its stream decodes to an index out of range |
| `Codec.OmittedMaskUnreadable` | encode.go:45-79 | without `UseAlphaMask`, the stream of an image that is not all opaque decodes to an unreadable alpha mask or an unreadable pixel section, and to the former when the hue is uniform |
| `Codec.OmittedStream` | decode.go:41-53 | a header announcing a mask, followed only by pixel bytes, fails in the alpha read or the pixel read, and in the alpha read when there are no pixel bytes |
| `Codec.OmittedMaskMisread` | encode.go:45-79 | without `UseAlphaMask`, in bitmask mode with neither uniform hue nor excluded pixels, an image that is not all opaque encodes, and its stream decodes to an unreadable pixel section |
| `Codec.MisreadStream` | decode.go:41-53 | a header announcing a mask, followed only by at least as many pixel bytes as the mask has, fails in the pixel read |
| `Codec.RleBufferOverflow` | encode.go:168-169 | a 2x1 image with one transparent and one opaque pixel needs 2 records in a 1-byte buffer, and run-length encoding it fails |

## Left out

- zlib compression (RFC 1950) of the payload is not modelled. The stream is the header followed by the uncompressed payload.
- `io` plumbing is not modelled: writers, readers and their errors.
  - This includes the checks that the header and the sections were written in full.
  - `DecodeConfig`'s single `Read` of the header is modelled as exact slicing of the first 32 bytes. A short read from a stream that holds at least 32 bytes is not modelled.
  - The sections are read with `io.ReadFull`, modelled as exact slicing; a section the stream cannot supply in full is a read error.
- The hue tint is not modelled: `RGBToHSV` and `HSVToRGB` are floating-point code in an external package. It is the function parameter `HueTint`.
- `ColorToGray`: Go's `math.Round` of a float64 quotient is not modelled. It is written as the integer `(sum + 500) / 1000`. This agrees with round-half-away-from-zero for the non-negative sums that occur.
- `color.RGBAModel.Convert` is not modelled: each pixel is given already converted, or as inconvertible. The rectangle's `Min` offset is not modelled either; images are indexed from (0, 0).
- `image.RGBA` is a row-major sequence of pixels.
- `Decoder.DecodeImageData`: the image buffer is a sequence updated at an index, not an array. This keeps the decoder a method over values, as Go's `SetRGBA` is a store at index `y * width + x`.
- The tests are cited only as evidence of the intended header values. Tests are not part of this model.
- `Codec.RoundTrip` covers only images that are not all opaque and that use the alpha mask. An image with no pixels round-trips in every mode (`Codec.EmptyRoundTrip`). For every image with at least one pixel, the other two cases fail to decode: `Codec.OpaqueImageUndecodable` shows the index out of range for an all-opaque image, and `Codec.OmittedMaskUnreadable` shows the read error when the mask is not written.
