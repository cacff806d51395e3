/**
 * Bytes and the fixed-width big-endian integers of the wire format, as Python's
 * `struct` writes and reads them with the '>' (big-endian, standard size) prefix.
 */
module Wire {

  /** One octet of the serial stream. */
  type byte = b: int | 0 <= b < 0x100

  /**
   * Four raw bytes that stand for a big-endian IEEE-754 single (a timestamp or an
   * 'f' field). The model never interprets them, so what goes in comes out bit for bit.
   */
  type Word = w: seq<byte> | |w| == 4 witness [0, 0, 0, 0]

  /** `struct.unpack('>h', [hi, lo])`: a signed 16-bit two's-complement value. */
  function Int16Value(hi: byte, lo: byte): (v: int)
    ensures -0x8000 <= v < 0x8000
    ensures v >= 0 <==> hi < 0x80
  {
    var u: int := hi * 0x100 + lo;
    if u >= 0x8000 then u - 0x1_0000 else u
  }

  /** `struct.pack('>h', v)`, defined for the values `struct` accepts. */
  function Int16Bytes(v: int): (r: seq<byte>)
    requires -0x8000 <= v < 0x8000
    ensures |r| == 2 && Int16Value(r[0], r[1]) == v
  {
    var u := if v < 0 then v + 0x1_0000 else v;
    [u / 0x100, u % 0x100]
  }

  /** Reading two bytes as an int16 and writing the value back gives the same two bytes. */
  lemma Int16BytesOfValue(hi: byte, lo: byte)
    ensures Int16Bytes(Int16Value(hi, lo)) == [hi, lo]
  {
  }

  /** `struct.unpack('>i', w)`: a signed 32-bit two's-complement value. */
  function Int32Value(w: seq<byte>): (v: int)
    requires |w| == 4
    ensures -0x8000_0000 <= v < 0x8000_0000
    ensures v >= 0 <==> w[0] < 0x80
  {
    var u := ((w[0] as int * 0x100 + w[1]) * 0x100 + w[2]) * 0x100 + w[3];
    if u >= 0x8000_0000 then u - 0x1_0000_0000 else u
  }

  /** `struct.pack('>i', v)`, defined for the values `struct` accepts. */
  function Int32Bytes(v: int): (r: seq<byte>)
    requires -0x8000_0000 <= v < 0x8000_0000
    ensures |r| == 4 && Int32Value(r) == v
  {
    var u := if v < 0 then v + 0x1_0000_0000 else v;
    var hi, lo := u / 0x1_0000, u % 0x1_0000;
    Int16Reassembles(hi);
    Int16Reassembles(lo);
    [hi / 0x100, hi % 0x100, lo / 0x100, lo % 0x100]
  }

  lemma Int16Reassembles(h: nat)
    requires h < 0x1_0000
    ensures h / 0x100 < 0x100 && (h / 0x100) * 0x100 + h % 0x100 == h
  {
  }

  /**
   * A 32-bit field holds a value below 2^16 exactly when its two high bytes are zero;
   * the low bytes are then the value's big-endian 16 bits.
   */
  lemma Int32SmallValue(w: seq<byte>, v: nat)
    requires |w| == 4 && v < 0x1_0000
    ensures Int32Value(w) == v <==> w == [0, 0, v / 0x100, v % 0x100]
  {
  }
}
