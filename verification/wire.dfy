/**
 * Fixed-width integers laid out in bytes, as Go's encoding/binary package writes
 * and reads them: PutUint16/PutUint32 store into a slice in place, Uint16/Uint32
 * read a value back. Little-endian puts the least significant byte first,
 * big-endian the most significant byte first.
 */
module Wire {
  import opened Bits

  const Max16: nat := 0x1_0000
  const Max32: nat := 0x1_0000_0000

  function LittleEndian16(v: nat): (b: seq<byte>)
    requires v < Max16
    ensures |b| == 2
  {
    [v % 0x100, v / 0x100]
  }

  function BigEndian16(v: nat): (b: seq<byte>)
    requires v < Max16
    ensures |b| == 2
  {
    [v / 0x100, v % 0x100]
  }

  /** The low half, then the high half, each little-endian. */
  function LittleEndian32(v: nat): (b: seq<byte>)
    requires v < Max32
    ensures |b| == 4
  {
    LittleEndian16(v % Max16) + LittleEndian16(v / Max16)
  }

  /** The high half, then the low half, each big-endian. */
  function BigEndian32(v: nat): (b: seq<byte>)
    requires v < Max32
    ensures |b| == 4
  {
    BigEndian16(v / Max16) + BigEndian16(v % Max16)
  }

  /** binary.LittleEndian.Uint16 */
  function Uint16LE(b: seq<byte>): (v: nat)
    requires |b| == 2
    ensures v < Max16
  {
    b[0] + 0x100 * (b[1] as nat)
  }

  function Uint16BE(b: seq<byte>): (v: nat)
    requires |b| == 2
    ensures v < Max16
  {
    0x100 * (b[0] as nat) + b[1]
  }

  /** binary.LittleEndian.Uint32 */
  function Uint32LE(b: seq<byte>): (v: nat)
    requires |b| == 4
    ensures v < Max32
  {
    Uint16LE(b[..2]) + Max16 * Uint16LE(b[2..])
  }

  /** binary.BigEndian.Uint32 */
  function Uint32BE(b: seq<byte>): (v: nat)
    requires |b| == 4
    ensures v < Max32
  {
    Max16 * Uint16BE(b[..2]) + Uint16BE(b[2..])
  }

  /** Reading back what was written gives the value, and every 2-byte string is the encoding of what it reads as. */
  lemma LittleEndian16RoundTrip(v: nat, b: seq<byte>)
    requires v < Max16 && |b| == 2
    ensures Uint16LE(LittleEndian16(v)) == v
    ensures LittleEndian16(Uint16LE(b)) == b
  {
  }

  lemma BigEndian16RoundTrip(v: nat, b: seq<byte>)
    requires v < Max16 && |b| == 2
    ensures Uint16BE(BigEndian16(v)) == v
    ensures BigEndian16(Uint16BE(b)) == b
  {
  }

  lemma LittleEndian32RoundTrip(v: nat, b: seq<byte>)
    requires v < Max32 && |b| == 4
    ensures Uint32LE(LittleEndian32(v)) == v
    ensures LittleEndian32(Uint32LE(b)) == b
  {
    var e := LittleEndian32(v);
    LittleEndian16RoundTrip(v % Max16, b[..2]);
    LittleEndian16RoundTrip(v / Max16, b[2..]);
    assert e[..2] == LittleEndian16(v % Max16) && e[2..] == LittleEndian16(v / Max16);
    var lo, hi := Uint16LE(b[..2]), Uint16LE(b[2..]);
    var w := lo + Max16 * hi;
    assert w % Max16 == lo && w / Max16 == hi;
    assert b == b[..2] + b[2..];
  }

  lemma BigEndian32RoundTrip(v: nat, b: seq<byte>)
    requires v < Max32 && |b| == 4
    ensures Uint32BE(BigEndian32(v)) == v
    ensures BigEndian32(Uint32BE(b)) == b
  {
    var e := BigEndian32(v);
    BigEndian16RoundTrip(v / Max16, b[..2]);
    BigEndian16RoundTrip(v % Max16, b[2..]);
    assert e[..2] == BigEndian16(v / Max16) && e[2..] == BigEndian16(v % Max16);
    var hi, lo := Uint16BE(b[..2]), Uint16BE(b[2..]);
    var w := Max16 * hi + lo;
    assert w % Max16 == lo && w / Max16 == hi;
    assert b == b[..2] + b[2..];
  }

  /** s with the bytes from offset off on replaced by b. */
  function Splice(s: seq<byte>, off: nat, b: seq<byte>): (t: seq<byte>)
    requires off + |b| <= |s|
    ensures |t| == |s|
  {
    s[..off] + b + s[off + |b|..]
  }

  /** Splice puts b at offset off and keeps every other byte. */
  lemma SpliceAt(s: seq<byte>, off: nat, b: seq<byte>)
    requires off + |b| <= |s|
    ensures Splice(s, off, b)[off..off + |b|] == b
    ensures forall i :: 0 <= i < |s| && !(off <= i < off + |b|) ==> Splice(s, off, b)[i] == s[i]
  {
  }

  /** binary.LittleEndian.PutUint16(buf[off:off+2], v) */
  method PutUint16LE(buf: array<byte>, off: nat, v: nat)
    requires off + 2 <= buf.Length && v < Max16
    modifies buf
    ensures buf[..] == Splice(old(buf[..]), off, LittleEndian16(v))
  {
    buf[off] := v % 0x100;
    buf[off + 1] := v / 0x100;
  }

  /** binary.LittleEndian.PutUint32(buf[off:off+4], v) */
  method PutUint32LE(buf: array<byte>, off: nat, v: nat)
    requires off + 4 <= buf.Length && v < Max32
    modifies buf
    ensures buf[..] == Splice(old(buf[..]), off, LittleEndian32(v))
  {
    var lo, hi := v % Max16, v / Max16;
    buf[off] := lo % 0x100;
    buf[off + 1] := lo / 0x100;
    buf[off + 2] := hi % 0x100;
    buf[off + 3] := hi / 0x100;
  }

  /** binary.BigEndian.PutUint32(buf[off:off+4], v) */
  method PutUint32BE(buf: array<byte>, off: nat, v: nat)
    requires off + 4 <= buf.Length && v < Max32
    modifies buf
    ensures buf[..] == Splice(old(buf[..]), off, BigEndian32(v))
  {
    var hi, lo := v / Max16, v % Max16;
    buf[off] := hi / 0x100;
    buf[off + 1] := hi % 0x100;
    buf[off + 2] := lo / 0x100;
    buf[off + 3] := lo % 0x100;
  }
}
