/**
 * The alpha section: the per-pixel opacity sequence (row-major), stored either
 * as a bitmask (8 pixels per byte, most significant bit first) or as run-length
 * records (bits 0..6 the run length, bit 7 the opacity of the run).
 *
 * The encoder-side definitions (PackBits, RleEncode) are what encode.go's
 * processImageFormat writes; the decoder-side views (AllBits, Flatten) are the
 * opacity streams decode.go's decodeImageData reads out of a section.
 */
module AlphaMask {
  import opened Bits
  import opened Types

  function Min(a: int, b: int): (m: int)
  {
    if a < b then a else b
  }

  // ---------------------------------------------------------------- bitmask

  /**
   * One bitmask byte: bits[t] stored at bit 7 - t, unused low bits zero. Built
   * the way the encoder builds it, one `alphaByte |= 0x80 >> t` per opaque pixel.
   */
  function PackByte(bits: seq<bool>): (b: nat)
    requires |bits| <= 8
    ensures b < 256
    decreases |bits|
  {
    if bits == [] then 0
    else
      var p := PackByte(bits[..|bits| - 1]);
      if bits[|bits| - 1] then (SetBitByte(p, 8 - |bits|); SetBit(p, 8 - |bits|)) else p
  }

  /** Appending one flag to a partial byte sets bit 7 - |bits| for an opaque pixel. */
  lemma PackByteStep(bits: seq<bool>, b: bool)
    requires |bits| < 8
    ensures PackByte(bits + [b]) == if b then SetBit(PackByte(bits), 7 - |bits|) else PackByte(bits)
  {
    var longer := bits + [b];
    assert longer[..|longer| - 1] == bits && longer[|longer| - 1] == b && 8 - |longer| == 7 - |bits|;
  }

  lemma {:induction false} PackByteBits(bits: seq<bool>, t: nat)
    requires |bits| <= 8 && t < 8
    ensures MsbBit(PackByte(bits), t) == (t < |bits| && bits[t])
    decreases |bits|
  {
    if bits == [] {
      BitAtBeyond(0, 7 - t, 0);
    } else {
      var q := bits[..|bits| - 1];
      PackByteBits(q, t);
      if bits[|bits| - 1] {
        SetBitSpec(PackByte(q), 8 - |bits|, 7 - t);
      }
    }
  }

  /** The bitmask section for a mask: one byte per 8 pixels, the last one padded. */
  function PackBits(mask: seq<bool>): (bytes: seq<byte>)
  {
    seq((|mask| + 7) / 8, j requires 0 <= j < (|mask| + 7) / 8 => PackByte(mask[8 * j .. Min(8 * j + 8, |mask|)]))
  }

  /**
   * Bitmask layout: the section has (n + 7) / 8 bytes, pixel i is bit 7 - (i mod 8)
   * of byte i / 8, and the padding bits of the last byte are zero.
   */
  lemma PackBitsLayout(mask: seq<bool>, i: nat)
    requires i < 8 * |PackBits(mask)|
    ensures |PackBits(mask)| == (|mask| + 7) / 8
    ensures MsbBit(PackBits(mask)[i / 8], i % 8) == (i < |mask| && mask[i])
  {
    var j := i / 8;
    PackByteBits(mask[8 * j .. Min(8 * j + 8, |mask|)], i % 8);
  }

  /** Bitmask writer state between pixels: the bytes stored, the byte being filled, and how many of its bits are used. */
  datatype BitState = BitState(bytes: seq<byte>, pending: byte, used: nat)

  /** One pixel of the bitmask writer: set its bit when opaque, store the byte once it holds 8 pixels. */
  function BitStep(s: BitState, av: bool): (t: BitState)
    requires s.used < 8
    ensures t.used < 8
  {
    SetBitByte(s.pending, 7 - s.used);
    var b: byte := if av then SetBit(s.pending, 7 - s.used) else s.pending;
    if s.used + 1 == 8 then BitState(s.bytes + [b], 0, 0) else BitState(s.bytes, b, s.used + 1)
  }

  function BitScan(mask: seq<bool>): (s: BitState)
    ensures s.used < 8
    decreases |mask|
  {
    if mask == [] then BitState([], 0, 0)
    else BitStep(BitScan(mask[..|mask| - 1]), mask[|mask| - 1])
  }

  /** Scanning one more pixel of a mask is one more step. */
  lemma BitScanPrefix(mask: seq<bool>, i: nat)
    requires i < |mask|
    ensures BitScan(mask[..i + 1]) == BitStep(BitScan(mask[..i]), mask[i])
  {
    assert mask[..i + 1][..i] == mask[..i];
  }

  /** The bitmask the encoder's loop leaves behind: the stored bytes, then the partial byte if any. */
  function BitmaskEncode(mask: seq<bool>): (bytes: seq<byte>)
  {
    var s := BitScan(mask);
    s.bytes + (if s.used > 0 then [s.pending] else [])
  }

  /** After a prefix: one stored byte per full group of 8, and the partial byte packs the rest. */
  ghost predicate BitScanInvariant(s: BitState, mask: seq<bool>)
  {
    && s.used < 8
    && 8 * |s.bytes| + s.used == |mask|
    && (forall j :: 0 <= j < |s.bytes| ==> s.bytes[j] == PackByte(mask[8 * j .. 8 * j + 8]))
    && s.pending == PackByte(mask[8 * |s.bytes| ..])
  }

  /** One step of the writer keeps the invariant for the mask one pixel longer. */
  lemma BitStepKeeps(s: BitState, p: seq<bool>, av: bool)
    requires BitScanInvariant(s, p)
    ensures BitScanInvariant(BitStep(s, av), p + [av])
  {
    var mask := p + [av];
    var k := 8 * |s.bytes|;
    assert mask[k..] == p[k..] + [av];
    PackByteStep(p[k..], av);
    var b := PackByte(mask[k..]);
    forall j | 0 <= j < |s.bytes|
      ensures mask[8 * j .. 8 * j + 8] == p[8 * j .. 8 * j + 8]
    {
    }
    if s.used + 1 == 8 {
      assert BitStep(s, av) == BitState(s.bytes + [b], 0, 0);
      assert mask[k .. k + 8] == mask[k..];
      assert mask[k + 8 ..] == [];
    } else {
      assert BitStep(s, av) == BitState(s.bytes, b, s.used + 1);
    }
  }

  lemma {:induction false} BitScanHolds(mask: seq<bool>)
    ensures BitScanInvariant(BitScan(mask), mask)
    decreases |mask|
  {
    if mask != [] {
      var n := |mask| - 1;
      var p := mask[..n];
      BitScanHolds(p);
      BitStepKeeps(BitScan(p), p, mask[n]);
      assert p + [mask[n]] == mask;
    }
  }

  /** The loop's bitmask is the packed mask. */
  lemma BitmaskEncodeSpec(mask: seq<bool>)
    ensures BitmaskEncode(mask) == PackBits(mask)
  {
    var s := BitScan(mask);
    BitScanHolds(mask);
    var e := BitmaskEncode(mask);
    assert |e| == (|mask| + 7) / 8;
    forall j | 0 <= j < |e|
      ensures e[j] == PackBits(mask)[j]
    {
      if j < |s.bytes| {
        assert e[j] == s.bytes[j];
        assert Min(8 * j + 8, |mask|) == 8 * j + 8;
      } else {
        assert e[j] == s.pending;
        assert Min(8 * j + 8, |mask|) == |mask|;
        assert mask[8 * j .. |mask|] == mask[8 * j ..];
      }
    }
  }

  /** The opacity stream a decoder reads from a bitmask section: bit 7 - (i mod 8) of byte i / 8. */
  function AllBits(alpha: seq<byte>): (bits: seq<bool>)
    ensures |bits| == 8 * |alpha|
  {
    seq(8 * |alpha|, i requires 0 <= i < 8 * |alpha| => MsbBit(alpha[i / 8], i % 8))
  }

  /** Unpacking a packed mask gives the mask back, followed only by padding zeros. */
  lemma BitmaskRoundTrip(mask: seq<bool>)
    ensures |mask| <= |AllBits(PackBits(mask))| < |mask| + 8
    ensures AllBits(PackBits(mask))[..|mask|] == mask
    ensures forall i :: |mask| <= i < |AllBits(PackBits(mask))| ==> !AllBits(PackBits(mask))[i]
  {
    var bits := AllBits(PackBits(mask));
    forall i | 0 <= i < |bits|
      ensures bits[i] == (i < |mask| && mask[i])
    {
      PackBitsLayout(mask, i);
    }
  }

  /** Conversely every byte string is the packing of its own bits. */
  lemma BitmaskUnpackRoundTrip(alpha: seq<byte>)
    ensures PackBits(AllBits(alpha)) == alpha
  {
    var bits := AllBits(alpha);
    var packed := PackBits(bits);
    assert |packed| == |alpha|;
    forall j | 0 <= j < |alpha|
      ensures packed[j] == alpha[j]
    {
      forall k: nat | k < 8
        ensures BitAt(packed[j], k) == BitAt(alpha[j], k)
      {
        var i := 8 * j + (7 - k);
        PackBitsLayout(bits, i);
        assert i / 8 == j && i % 8 == 7 - k;
      }
      assert Pow2(8) == 256;
      BitsDetermine(packed[j], alpha[j], 8);
    }
  }

  // ---------------------------------------------------------------- run-length records

  /** The opacity of a record: `r & 0x80 != 0`. */
  function RunValue(r: byte): (isOpaque: bool)
  {
    BitAt(r, 7)
  }

  /** The stored run length: `r & 0x7F`. */
  function RunCount(r: byte): (stored: nat)
  {
    r % 128
  }

  /**
   * How many pixels a decoder produces from a record. Its counter is a uint8
   * that is decremented once per pixel before being tested for zero again, so a
   * stored length of 0 wraps around and yields 256 pixels.
   */
  function RunLength(r: byte): (pixels: nat)
  {
    if RunCount(r) == 0 then 256 else RunCount(r)
  }

  /** The record the encoder writes for a run: byte(length), with `|= 1 << 7` for an opaque run. */
  function Record(length: nat, value: bool): (r: byte)
    requires 1 <= length <= 127
    ensures RunValue(r) == value && RunCount(r) == length && RunLength(r) == length
  {
    SetHighBit(length);
    HighBit(length + 128);
    HighBit(length);
    if value then SetBit(length, 7) else length
  }

  /** A record and its two fields determine each other. */
  lemma RecordFields(r: byte)
    requires RunCount(r) != 0
    ensures r == Record(RunCount(r), RunValue(r))
  {
    HighBit(r);
    SetHighBit(RunCount(r));
    if r >= 128 {
      assert RunCount(r) == r - 128;
    } else {
      assert RunCount(r) == r;
    }
  }

  lemma TailKeepsShape(records: seq<byte>)
    requires records != [] && ValidRecords(records) && MaximalRuns(records)
    ensures ValidRecords(records[1..]) && MaximalRuns(records[1..])
  {
    var tail := records[1..];
    forall k | 0 <= k < |tail| - 1 && RunValue(tail[k]) == RunValue(tail[k + 1])
      ensures RunCount(tail[k]) == 127
    {
      assert tail[k] == records[k + 1] && tail[k + 1] == records[k + 2];
    }
  }

  /** The opacity stream a decoder expands from run-length records. */
  function Flatten(records: seq<byte>): (stream: seq<bool>)
  {
    if records == [] then [] else Repeat(RunValue(records[0]), RunLength(records[0])) + Flatten(records[1..])
  }

  lemma {:induction false} FlattenAppend(a: seq<byte>, b: seq<byte>)
    ensures Flatten(a + b) == Flatten(a) + Flatten(b)
  {
    if a == [] {
      assert a + b == b;
    } else {
      assert (a + b)[1..] == a[1..] + b;
      FlattenAppend(a[1..], b);
    }
  }

  lemma FlattenOne(r: byte)
    ensures Flatten([r]) == Repeat(RunValue(r), RunLength(r))
  {
    assert [r][1..] == [];
  }

  /** A zero length stored in a record decodes as a run of 256 pixels. */
  lemma ZeroLengthRecordWraps()
    ensures Flatten([0x00]) == Repeat(false, 256)
    ensures Flatten([0x80]) == Repeat(true, 256)
  {
    FlattenOne(0x00);
    FlattenOne(0x80);
    HighBit(0x00);
    HighBit(0x80);
  }

  /** Encoder state between pixels: records written so far, and the pending run. */
  datatype RunState = RunState(records: seq<byte>, value: bool, length: nat)

  /**
   * One pixel of the RLE writer: start a run, extend it, or flush it when the
   * opacity changes or when it reaches 127.
   */
  function RleStep(s: RunState, av: bool): (t: RunState)
    requires s.length < 127
    ensures t.length < 127
  {
    if s.length == 0 then RunState(s.records, av, 1)
    else if s.value != av then RunState(s.records + [Record(s.length, s.value)], av, 1)
    else if s.length + 1 == 127 then RunState(s.records + [Record(127, av)], av, 0)
    else RunState(s.records, av, s.length + 1)
  }

  function RleScan(mask: seq<bool>): (s: RunState)
    ensures s.length < 127
    decreases |mask|
  {
    if mask == [] then RunState([], false, 0)
    else RleStep(RleScan(mask[..|mask| - 1]), mask[|mask| - 1])
  }

  /** Scanning one more pixel of a mask is one more step. */
  lemma RleScanPrefix(mask: seq<bool>, i: nat)
    requires i < |mask|
    ensures RleScan(mask[..i + 1]) == RleStep(RleScan(mask[..i]), mask[i])
  {
    assert mask[..i + 1][..i] == mask[..i];
  }

  /** The RLE alpha section for a mask: the scan's records, then the pending run if any. */
  function RleEncode(mask: seq<bool>): (records: seq<byte>)
  {
    var s := RleScan(mask);
    s.records + (if s.length > 0 then [Record(s.length, s.value)] else [])
  }

  /** Every record has a length in 1..127. */
  ghost predicate ValidRecords(records: seq<byte>)
  {
    forall k :: 0 <= k < |records| ==> RunCount(records[k]) != 0
  }

  /** Runs are maximal: a record is followed by one of the same opacity only when it is full (127). */
  ghost predicate MaximalRuns(records: seq<byte>)
  {
    forall k :: 0 <= k < |records| - 1 ==> RunValue(records[k]) == RunValue(records[k + 1]) ==> RunCount(records[k]) == 127
  }

  /** What the RLE writer's state always satisfies. */
  ghost predicate ScanInvariant(s: RunState, mask: seq<bool>)
  {
    && ValidRecords(s.records)
    && MaximalRuns(s.records)
    && Flatten(s.records) + Repeat(s.value, s.length) == mask
    && (s.records != [] && (s.length == 0 || RunValue(s.records[|s.records| - 1]) == s.value) ==>
          RunCount(s.records[|s.records| - 1]) == 127)
  }

  lemma AppendRecord(s: RunState, r: byte)
    requires ValidRecords(s.records) && MaximalRuns(s.records) && RunCount(r) != 0
    requires s.records != [] && RunValue(s.records[|s.records| - 1]) == RunValue(r) ==> RunCount(s.records[|s.records| - 1]) == 127
    ensures ValidRecords(s.records + [r]) && MaximalRuns(s.records + [r])
    ensures Flatten(s.records + [r]) == Flatten(s.records) + Repeat(RunValue(r), RunLength(r))
  {
    FlattenAppend(s.records, [r]);
    FlattenOne(r);
    var rs := s.records + [r];
    forall k | 0 <= k < |rs| - 1 && RunValue(rs[k]) == RunValue(rs[k + 1])
      ensures RunCount(rs[k]) == 127
    {
      if k < |s.records| - 1 {
        assert rs[k] == s.records[k] && rs[k + 1] == s.records[k + 1];
      }
    }
  }

  /** One step of the writer keeps the invariant. */
  lemma ScanStep(s: RunState, p: seq<bool>, av: bool)
    requires s.length < 127 && ScanInvariant(s, p)
    ensures ScanInvariant(RleStep(s, av), p + [av])
  {
    var t := RleStep(s, av);
    if s.length == 0 {
      assert Flatten(t.records) + Repeat(av, 1) == p + [av];
    } else if s.value != av {
      ScanFlushOnChange(s, p, av);
    } else if s.length + 1 == 127 {
      ScanFlushFull(s, p, av);
    } else {
      assert Repeat(av, s.length + 1) == Repeat(av, s.length) + [av];
    }
  }

  lemma ScanFlushOnChange(s: RunState, p: seq<bool>, av: bool)
    requires 0 < s.length < 127 && s.value != av && ScanInvariant(s, p)
    ensures ScanInvariant(RunState(s.records + [Record(s.length, s.value)], av, 1), p + [av])
  {
    AppendRecord(s, Record(s.length, s.value));
  }

  lemma ScanFlushFull(s: RunState, p: seq<bool>, av: bool)
    requires s.length == 126 && s.value == av && ScanInvariant(s, p)
    ensures ScanInvariant(RunState(s.records + [Record(127, av)], av, 0), p + [av])
  {
    AppendRecord(s, Record(127, av));
    assert Repeat(av, 127) == Repeat(av, s.length) + [av];
  }

  lemma {:induction false} RleScanInvariant(mask: seq<bool>)
    ensures ScanInvariant(RleScan(mask), mask)
    decreases |mask|
  {
    if mask != [] {
      var p, av := mask[..|mask| - 1], mask[|mask| - 1];
      assert mask == p + [av];
      RleScanInvariant(p);
      ScanStep(RleScan(p), p, av);
    }
  }

  /**
   * The RLE section is a valid, maximal record sequence that expands to
   * exactly the mask.
   */
  lemma RleEncodeSpec(mask: seq<bool>)
    ensures ValidRecords(RleEncode(mask)) && MaximalRuns(RleEncode(mask))
    ensures Flatten(RleEncode(mask)) == mask
  {
    RleScanInvariant(mask);
    var s := RleScan(mask);
    if s.length > 0 {
      AppendRecord(s, Record(s.length, s.value));
    } else {
      assert s.records + [] == s.records;
    }
  }

  lemma FlattenNonEmpty(records: seq<byte>)
    requires records != []
    ensures |Flatten(records)| >= RunLength(records[0])
    ensures Flatten(records)[..RunLength(records[0])] == Repeat(RunValue(records[0]), RunLength(records[0]))
    ensures Flatten(records)[RunLength(records[0])..] == Flatten(records[1..])
  {
  }

  /** Valid records expand to nothing only when there are none. */
  lemma FlattenEmpty(records: seq<byte>)
    requires ValidRecords(records)
    ensures (Flatten(records) == []) == (records == [])
  {
  }

  /** After a first run shorter than 127, a maximal encoding continues with the other opacity or ends. */
  lemma RunEndsAt(records: seq<byte>)
    requires ValidRecords(records) && MaximalRuns(records)
    requires records != [] && RunCount(records[0]) < 127
    ensures |Flatten(records)| == RunLength(records[0]) || Flatten(records)[RunLength(records[0])] != RunValue(records[0])
  {
    FlattenNonEmpty(records);
    if |records| > 1 {
      assert RunValue(records[0]) != RunValue(records[1]);
      FlattenNonEmpty(records[1..]);
    } else {
      assert records[1..] == [];
    }
  }

  /** Of two encodings of the same stream, the maximal one has the longer (or equal) first run. */
  lemma FirstRunNotShorter(r1: seq<byte>, r2: seq<byte>)
    requires ValidRecords(r1) && MaximalRuns(r1) && ValidRecords(r2)
    requires r1 != [] && r2 != [] && Flatten(r1) == Flatten(r2)
    ensures RunLength(r1[0]) >= RunLength(r2[0])
  {
    FlattenNonEmpty(r1);
    FlattenNonEmpty(r2);
    assert RunValue(r1[0]) == Flatten(r1)[0];
    if RunCount(r1[0]) < 127 {
      RunEndsAt(r1);
    }
  }

  /**
   * Valid maximal records are determined by what they expand to: RleEncode(m)
   * is the only such encoding of m.
   */
  lemma {:induction false} RleCanonical(r1: seq<byte>, r2: seq<byte>)
    requires ValidRecords(r1) && MaximalRuns(r1)
    requires ValidRecords(r2) && MaximalRuns(r2)
    requires Flatten(r1) == Flatten(r2)
    ensures r1 == r2
    decreases |r1|
  {
    FlattenEmpty(r1);
    FlattenEmpty(r2);
    if r1 != [] && r2 != [] {
      var a, b := r1[0], r2[0];
      FlattenNonEmpty(r1);
      FlattenNonEmpty(r2);
      FirstRunNotShorter(r1, r2);
      FirstRunNotShorter(r2, r1);
      assert RunValue(a) == Flatten(r1)[0] == RunValue(b);
      RecordFields(a);
      RecordFields(b);
      var tail1, tail2 := r1[1..], r2[1..];
      TailKeepsShape(r1);
      TailKeepsShape(r2);
      RleCanonical(tail1, tail2);
      assert r1 == [a] + tail1 && r2 == [b] + tail2;
    }
  }

  lemma {:induction false} FlattenFullRuns(v: bool, q: nat)
    ensures Flatten(Repeat(Record(127, v), q)) == Repeat(v, 127 * q)
  {
    if q > 0 {
      var rs := Repeat(Record(127, v), q);
      assert rs[1..] == Repeat(Record(127, v), q - 1);
      FlattenFullRuns(v, q - 1);
      assert Repeat(v, 127) + Repeat(v, 127 * (q - 1)) == Repeat(v, 127 * q);
    }
  }

  /**
   * A uniform run of k pixels becomes k / 127 full records followed by one
   * record of k mod 127 when that is not zero.
   */
  lemma RleUniformRun(v: bool, k: nat)
    ensures RleEncode(Repeat(v, k)) ==
      Repeat(Record(127, v), k / 127) + (if k % 127 > 0 then [Record(k % 127, v)] else [])
  {
    var q, rest := k / 127, k % 127;
    var full := Repeat(Record(127, v), q);
    var tail: seq<byte> := if rest > 0 then [Record(rest, v)] else [];
    var c := full + tail;
    FlattenFullRuns(v, q);
    FlattenAppend(full, tail);
    if rest > 0 {
      FlattenOne(Record(rest, v));
    }
    assert Flatten(c) == Repeat(v, k);
    assert ValidRecords(c);
    assert MaximalRuns(c) by {
      forall j | 0 <= j < |c| - 1 ensures RunCount(c[j]) == 127 {
        assert j < q;
      }
    }
    RleEncodeSpec(Repeat(v, k));
    RleCanonical(RleEncode(Repeat(v, k)), c);
  }

  /** 300 opaque pixels give records of 127, 127 and 46; 254 give two full records; 255 give 127, 127, 1. */
  lemma RleRunBoundaries()
    ensures RleEncode(Repeat(true, 300)) == [0xFF, 0xFF, 0x80 + 46]
    ensures RleEncode(Repeat(true, 254)) == [0xFF, 0xFF]
    ensures RleEncode(Repeat(true, 255)) == [0xFF, 0xFF, 0x81]
    ensures RleEncode(Repeat(false, 300)) == [127, 127, 46]
  {
    var full := Record(127, true);
    HighBit(full);
    assert full == 0xFF;
    var full0 := Record(127, false);
    HighBit(full0);
    var r46 := Record(46, true);
    HighBit(r46);
    var r1 := Record(1, true);
    HighBit(r1);
    RleUniformRun(true, 300);
    RleUniformRun(true, 254);
    RleUniformRun(true, 255);
    RleUniformRun(false, 300);
    HighBit(Record(46, false));
    assert Repeat(full, 2) == [0xFF, 0xFF];
    assert Repeat(full0, 2) == [127, 127];
  }

  /** The opacity stream described by an alpha section of either kind. */
  function MaskStream(compress: bool, alpha: seq<byte>): (stream: seq<bool>)
  {
    if compress then Flatten(alpha) else AllBits(alpha)
  }
}
