/**
 * The pixel section: the luma bytes of the pixels that the inclusion rule keeps,
 * in row-major order. Both sides evaluate the rule once per pixel:
 * a luma byte is stored iff !uniformHue && (!excludeMaskedPixels || opaque).
 */
module PixelSamples {
  import opened Bits

  predicate Included(uniform: bool, exclude: bool, isOpaque: bool)
  {
    !uniform && (!exclude || isOpaque)
  }

  /** How many pixels of a mask the rule keeps. */
  function CountIncluded(uniform: bool, exclude: bool, mask: seq<bool>): (count: nat)
    decreases |mask|
  {
    if mask == [] then 0
    else CountIncluded(uniform, exclude, mask[..|mask| - 1]) + (if Included(uniform, exclude, mask[|mask| - 1]) then 1 else 0)
  }

  /** The pixel section the encoder writes: the kept luma bytes, in order. */
  function PixelSection(uniform: bool, exclude: bool, mask: seq<bool>, luma: seq<byte>): (section: seq<byte>)
    requires |mask| == |luma|
    decreases |mask|
  {
    if mask == [] then []
    else
      var n := |mask| - 1;
      PixelSection(uniform, exclude, mask[..n], luma[..n]) + (if Included(uniform, exclude, mask[n]) then [luma[n]] else [])
  }

  /** Taking one more pixel appends its luma byte exactly when the rule keeps it. */
  lemma PixelSectionPrefix(uniform: bool, exclude: bool, mask: seq<bool>, luma: seq<byte>, i: nat)
    requires |mask| == |luma| && i < |mask|
    ensures PixelSection(uniform, exclude, mask[..i + 1], luma[..i + 1]) ==
              PixelSection(uniform, exclude, mask[..i], luma[..i]) + (if Included(uniform, exclude, mask[i]) then [luma[i]] else [])
  {
    assert mask[..i + 1][..i] == mask[..i];
    assert luma[..i + 1][..i] == luma[..i];
  }

  /** The section holds one byte per kept pixel: never more than the image, nothing at all under uniform hue. */
  lemma {:induction false} PixelSectionLength(uniform: bool, exclude: bool, mask: seq<bool>, luma: seq<byte>)
    requires |mask| == |luma|
    ensures |PixelSection(uniform, exclude, mask, luma)| == CountIncluded(uniform, exclude, mask) <= |mask|
    ensures uniform ==> PixelSection(uniform, exclude, mask, luma) == []
    decreases |mask|
  {
    if mask != [] {
      var n := |mask| - 1;
      PixelSectionLength(uniform, exclude, mask[..n], luma[..n]);
    }
  }

  /** Counting over a prefix: the count grows by one exactly at kept pixels, and never exceeds the whole. */
  lemma {:induction false} CountPrefix(uniform: bool, exclude: bool, mask: seq<bool>, i: nat)
    requires i < |mask|
    ensures CountIncluded(uniform, exclude, mask[..i + 1]) ==
              CountIncluded(uniform, exclude, mask[..i]) + (if Included(uniform, exclude, mask[i]) then 1 else 0)
    ensures CountIncluded(uniform, exclude, mask[..i + 1]) <= CountIncluded(uniform, exclude, mask)
    decreases |mask| - i
  {
    assert mask[..i + 1][..i] == mask[..i];
    if i + 1 < |mask| {
      CountPrefix(uniform, exclude, mask, i + 1);
    } else {
      assert mask[..i + 1] == mask;
    }
  }

  /**
   * The in-order subsequence property: the luma byte of a kept pixel i sits in
   * the section at the number of kept pixels before i.
   */
  lemma {:induction false} PixelSectionAt(uniform: bool, exclude: bool, mask: seq<bool>, luma: seq<byte>, i: nat)
    requires |mask| == |luma| && i < |mask| && Included(uniform, exclude, mask[i])
    ensures CountIncluded(uniform, exclude, mask[..i]) < |PixelSection(uniform, exclude, mask, luma)|
    ensures PixelSection(uniform, exclude, mask, luma)[CountIncluded(uniform, exclude, mask[..i])] == luma[i]
    decreases |mask|
  {
    var n := |mask| - 1;
    var before := PixelSection(uniform, exclude, mask[..n], luma[..n]);
    PixelSectionLength(uniform, exclude, mask[..n], luma[..n]);
    if i == n {
      assert mask[..n] == mask[..i];
    } else {
      assert mask[..n][..i] == mask[..i];
      PixelSectionAt(uniform, exclude, mask[..n], luma[..n], i);
    }
  }

  /** When the rule keeps nothing, no pixel of the mask is kept. */
  lemma NoneIncluded(uniform: bool, exclude: bool, mask: seq<bool>, i: nat)
    requires i < |mask| && CountIncluded(uniform, exclude, mask) == 0
    ensures !Included(uniform, exclude, mask[i])
  {
    CountPrefix(uniform, exclude, mask, i);
  }

  /**
   * The gray value the decoder gives a pixel, knowing the opacities of the
   * pixels before it: the next unread pixel byte when the rule keeps it, else 255.
   */
  function GrayAt(uniform: bool, exclude: bool, before: seq<bool>, isOpaque: bool, pix: seq<byte>): (gray: byte)
    requires Included(uniform, exclude, isOpaque) ==> CountIncluded(uniform, exclude, before) < |pix|
  {
    if Included(uniform, exclude, isOpaque) then pix[CountIncluded(uniform, exclude, before)] else 255
  }
}
