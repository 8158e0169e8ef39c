/** Little-endian reading and writing of unsigned integers inside a flat
    byte buffer (a `Uint8Array` in the JavaScript editor).

    JavaScript numbers are modelled as unbounded integers and its bitwise
    operators are written out: `x | y` on bytes shifted into disjoint bit
    positions is their sum, `& 0xFF` is `% 256`, `>>> n` first reduces its
    operand modulo 2^32, and `|` produces a signed 32-bit value. */
module Binary {

  type byte = x: int | 0 <= x < 256

  const U16Limit: nat := 0x1_0000
  const U32Limit: nat := 0x1_0000_0000

  /** JavaScript's ToInt32: the signed two's-complement reading of the low
      32 bits of `x`, which is what every bitwise operator yields. */
  function ToInt32(x: int): (r: int)
    ensures -0x8000_0000 <= r < 0x8000_0000
    ensures (r - x) % 0x1_0000_0000 == 0
  {
    var m := x % 0x1_0000_0000;
    if m >= 0x8000_0000 then m - 0x1_0000_0000 else m
  }

  /** JavaScript's ToUint32, which `>>>` applies to its left operand. */
  function ToUint32(x: int): (r: nat)
    ensures r < 0x1_0000_0000
    ensures (r - x) % 0x1_0000_0000 == 0
  {
    x % 0x1_0000_0000
  }

  /** Byte `k` (0 = least significant) of the two's-complement form of `v`. */
  function ByteAt(v: int, k: nat): byte
    decreases k
  {
    if k == 0 then v % 0x100 else ByteAt(v / 0x100, k - 1)
  }

  /** The little-endian value of four bytes, before any 32-bit wrapping. */
  function Assemble4(b0: byte, b1: byte, b2: byte, b3: byte): int
  {
    b0 as int + 0x100 * (b1 as int + 0x100 * (b2 as int + 0x100 * b3 as int))
  }

  /** `readUint32LE`: the four bytes OR-ed together form a signed 32-bit
      value; `>>> 0` reads it back as unsigned, so no sign is extended when
      the top byte is 0x80 or more. */
  function ReadUint32LE(buf: seq<byte>, off: nat): (r: nat)
    requires off + 4 <= |buf|
    ensures r < U32Limit
    ensures r == Assemble4(buf[off], buf[off + 1], buf[off + 2], buf[off + 3])
  {
    AssembleBounds(buf[off], buf[off + 1], buf[off + 2], buf[off + 3]);
    ToUint32(ToInt32(Assemble4(buf[off], buf[off + 1], buf[off + 2], buf[off + 3])))
  }

  /** `readUint16LE`: two bytes, low byte first; the result fits in 16 bits. */
  function ReadUint16LE(buf: seq<byte>, off: nat): (r: nat)
    requires off + 2 <= |buf|
    ensures r < U16Limit
    ensures r % 0x100 == buf[off] && r / 0x100 == buf[off + 1]
  {
    AddMultiple(buf[off], buf[off + 1]);
    buf[off] as int + 0x100 * buf[off + 1] as int
  }

  /** `writeUint32LE`: stores the low four bytes of `v`, least significant
      first, and touches nothing else; wider values are silently truncated. */
  function WriteUint32LE(buf: seq<byte>, off: nat, v: int): (r: seq<byte>)
    requires off + 4 <= |buf|
    ensures |r| == |buf|
    ensures forall i :: 0 <= i < |buf| && !(off <= i < off + 4) ==> r[i] == buf[i]
    ensures forall k :: 0 <= k < 4 ==> r[off + k] == ByteAt(v, k)
  {
    UnsignedShiftBytes(v);
    buf[off := v % 0x100]
       [off + 1 := (ToUint32(v) / 0x100) % 0x100]
       [off + 2 := (ToUint32(v) / 0x1_0000) % 0x100]
       [off + 3 := (ToUint32(v) / 0x100_0000) % 0x100]
  }

  /** `writeUint16LE`: stores the low two bytes of `v`, least significant first. */
  function WriteUint16LE(buf: seq<byte>, off: nat, v: int): (r: seq<byte>)
    requires off + 2 <= |buf|
    ensures |r| == |buf|
    ensures forall i :: 0 <= i < |buf| && !(off <= i < off + 2) ==> r[i] == buf[i]
    ensures forall k :: 0 <= k < 2 ==> r[off + k] == ByteAt(v, k)
  {
    UnsignedShiftBytes(v);
    buf[off := v % 0x100][off + 1 := (ToUint32(v) / 0x100) % 0x100]
  }

  // ---------------------------------------------------------------------
  // Round trips

  /** Writing any 32-bit value and reading it back yields the value; wider
      or negative values come back reduced modulo 2^32. */
  lemma ReadAfterWrite32(buf: seq<byte>, off: nat, v: int)
    requires off + 4 <= |buf|
    ensures ReadUint32LE(WriteUint32LE(buf, off, v), off) == v % U32Limit
    ensures 0 <= v < U32Limit ==> ReadUint32LE(WriteUint32LE(buf, off, v), off) == v
  {
    var w := WriteUint32LE(buf, off, v);
    var b0, b1, b2, b3 := ByteAt(v, 0), ByteAt(v, 1), ByteAt(v, 2), ByteAt(v, 3);
    assert w[off] == b0 && w[off + 1] == b1 && w[off + 2] == b2 && w[off + 3] == b3;
    assert ReadUint32LE(w, off) == Assemble4(b0, b1, b2, b3);
    AssembleBytesOf(v);
    SmallModIsSelf(v, U32Limit);
  }

  /** Writing any 16-bit value and reading it back yields the value; other
      values come back reduced modulo 2^16. */
  lemma ReadAfterWrite16(buf: seq<byte>, off: nat, v: int)
    requires off + 2 <= |buf|
    ensures ReadUint16LE(WriteUint16LE(buf, off, v), off) == v % U16Limit
    ensures 0 <= v < U16Limit ==> ReadUint16LE(WriteUint16LE(buf, off, v), off) == v
  {
    var w := WriteUint16LE(buf, off, v);
    assert w[off] == ByteAt(v, 0) && w[off + 1] == ByteAt(v, 1);
    var m := v % U16Limit;
    var q := v / U16Limit;
    assert v == m + 0x100 * (0x100 * q);
    AddMultiple(m, 0x100 * q);
    AddMultiple(m / 0x100, q);
    SmallModIsSelf(v, U16Limit);
  }

  /** Writing back the value just read leaves the buffer as it was. */
  lemma WriteWhatWasRead32(buf: seq<byte>, off: nat)
    requires off + 4 <= |buf|
    ensures WriteUint32LE(buf, off, ReadUint32LE(buf, off)) == buf
  {
    var w := WriteUint32LE(buf, off, ReadUint32LE(buf, off));
    BytesOfAssemble4(buf[off], buf[off + 1], buf[off + 2], buf[off + 3]);
    assert forall i :: 0 <= i < |buf| ==> w[i] == buf[i] by {
      forall i | 0 <= i < |buf|
        ensures w[i] == buf[i]
      {
        if off <= i < off + 4 {
          assert w[off + (i - off)] == ByteAt(ReadUint32LE(buf, off), i - off);
        }
      }
    }
  }

  /** Writing back the value just read leaves the buffer as it was. */
  lemma WriteWhatWasRead16(buf: seq<byte>, off: nat)
    requires off + 2 <= |buf|
    ensures WriteUint16LE(buf, off, ReadUint16LE(buf, off)) == buf
  {
    var w := WriteUint16LE(buf, off, ReadUint16LE(buf, off));
    assert forall i :: 0 <= i < |buf| ==> w[i] == buf[i] by {
      forall i | 0 <= i < |buf|
        ensures w[i] == buf[i]
      {
        if off <= i < off + 2 {
          assert w[off + (i - off)] == ByteAt(ReadUint16LE(buf, off), i - off);
          assert ByteAt(ReadUint16LE(buf, off), 1) == ByteAt(ReadUint16LE(buf, off) / 0x100, 0);
        }
      }
    }
  }

  /** Without the trailing `>>> 0`, a top byte of 0x80 or more would make
      the combined value negative: the shift is what keeps reads unsigned. */
  lemma SignedCombineIsNegative(buf: seq<byte>, off: nat)
    requires off + 4 <= |buf|
    requires buf[off + 3] >= 0x80
    ensures ToInt32(Assemble4(buf[off], buf[off + 1], buf[off + 2], buf[off + 3])) < 0
    ensures ToInt32(Assemble4(buf[off], buf[off + 1], buf[off + 2], buf[off + 3])) + U32Limit == ReadUint32LE(buf, off)
  {
  }

  // ---------------------------------------------------------------------
  // Arithmetic helpers

  lemma SmallModIsSelf(v: int, n: nat)
    requires n > 0
    ensures 0 <= v < n ==> v % n == v
  {
  }

  lemma AddMultiple(a: int, q: int)
    ensures (a + 0x100 * q) / 0x100 == a / 0x100 + q
    ensures (a + 0x100 * q) % 0x100 == a % 0x100
  {
  }

  lemma DivDiv(x: int)
    ensures (x / 0x100) / 0x100 == x / 0x1_0000
    ensures (x / 0x1_0000) / 0x100 == x / 0x100_0000
  {
  }

  /** Byte `k` of `x` is its quotient by 256^k, reduced modulo 256. */
  lemma ByteAtDiv(x: int)
    ensures ByteAt(x, 1) == (x / 0x100) % 0x100
    ensures ByteAt(x, 2) == (x / 0x1_0000) % 0x100
    ensures ByteAt(x, 3) == (x / 0x100_0000) % 0x100
  {
    DivDiv(x);
    assert ByteAt(x, 2) == ByteAt(x / 0x100, 1) == ByteAt((x / 0x100) / 0x100, 0);
    assert ByteAt(x, 3) == ByteAt(x / 0x100, 2) == ByteAt((x / 0x100) / 0x100, 1);
    DivDiv(x / 0x100);
  }

  /** Adding a multiple of 2^32 leaves the low four bytes alone. */
  lemma ShiftOutHigh(m: int, q: int)
    ensures (m + 0x1_0000_0000 * q) % 0x100 == m % 0x100
    ensures ((m + 0x1_0000_0000 * q) / 0x100) % 0x100 == (m / 0x100) % 0x100
    ensures ((m + 0x1_0000_0000 * q) / 0x1_0000) % 0x100 == (m / 0x1_0000) % 0x100
    ensures ((m + 0x1_0000_0000 * q) / 0x100_0000) % 0x100 == (m / 0x100_0000) % 0x100
  {
    var v := m + 0x1_0000_0000 * q;
    AddMultiple(m, 0x100_0000 * q);
    AddMultiple(m / 0x100, 0x1_0000 * q);
    AddMultiple(m / 0x100 / 0x100, 0x100 * q);
    AddMultiple(m / 0x100 / 0x100 / 0x100, q);
    DivDiv(v); DivDiv(m);
    DivDiv(v / 0x100); DivDiv(m / 0x100);
  }

  /** Reducing modulo 2^32 does not change the low four bytes. */
  lemma LowBytesOfMod(v: int)
    ensures ByteAt(v % U32Limit, 0) == ByteAt(v, 0) && ByteAt(v % U32Limit, 1) == ByteAt(v, 1)
    ensures ByteAt(v % U32Limit, 2) == ByteAt(v, 2) && ByteAt(v % U32Limit, 3) == ByteAt(v, 3)
  {
    var m := v % 0x1_0000_0000;
    var q := v / 0x1_0000_0000;
    assert v == m + 0x1_0000_0000 * q;
    ShiftOutHigh(m, q);
    ByteAtDiv(v);
    ByteAtDiv(m);
  }

  /** `>>> 8k` followed by `& 0xFF` extracts byte `k` of any integer. */
  lemma UnsignedShiftBytes(v: int)
    ensures (ToUint32(v) / 0x100) % 0x100 == ByteAt(v, 1)
    ensures (ToUint32(v) / 0x1_0000) % 0x100 == ByteAt(v, 2)
    ensures (ToUint32(v) / 0x100_0000) % 0x100 == ByteAt(v, 3)
  {
    LowBytesOfMod(v);
    ByteAtDiv(ToUint32(v));
  }

  /** Four bytes always assemble into an unsigned 32-bit value. */
  lemma AssembleBounds(b0: byte, b1: byte, b2: byte, b3: byte)
    ensures 0 <= Assemble4(b0, b1, b2, b3) < U32Limit
  {
  }

  /** The bytes of an assembled value are the bytes it was assembled from. */
  lemma BytesOfAssemble4(b0: byte, b1: byte, b2: byte, b3: byte)
    ensures var s := Assemble4(b0, b1, b2, b3);
      ByteAt(s, 0) == b0 && ByteAt(s, 1) == b1 && ByteAt(s, 2) == b2 && ByteAt(s, 3) == b3
  {
    var s := Assemble4(b0, b1, b2, b3);
    var t1 := b1 as int + 0x100 * (b2 as int + 0x100 * b3 as int);
    var t2 := b2 as int + 0x100 * b3 as int;
    AddMultiple(b0, t1);
    AddMultiple(b1, t2);
    AddMultiple(b2, b3);
    assert ByteAt(s, 1) == ByteAt(t1, 0);
    assert ByteAt(s, 2) == ByteAt(t1, 1) == ByteAt(t2, 0);
    assert ByteAt(s, 3) == ByteAt(t1, 2) == ByteAt(t2, 1) == ByteAt(b3, 0);
  }

  /** Assembling the four low bytes of any integer gives it modulo 2^32. */
  lemma AssembleBytesOf(v: int)
    ensures Assemble4(ByteAt(v, 0), ByteAt(v, 1), ByteAt(v, 2), ByteAt(v, 3)) == v % U32Limit
  {
    var m := v % U32Limit;
    LowBytesOfMod(v);
    ByteAtDiv(m);
    AssembleDigits(m);
  }

  /** A 32-bit value is the little-endian sum of its base-256 digits. */
  lemma AssembleDigits(m: int)
    requires 0 <= m < U32Limit
    ensures Assemble4(m % 0x100, (m / 0x100) % 0x100, (m / 0x1_0000) % 0x100, (m / 0x100_0000) % 0x100) == m
  {
    DivDiv(m);
    var a1, a2, a3 := m / 0x100, m / 0x1_0000, m / 0x100_0000;
    assert m == m % 0x100 + 0x100 * a1;
    assert a1 == a1 % 0x100 + 0x100 * a2;
    assert a2 == a2 % 0x100 + 0x100 * a3;
    assert a3 % 0x100 == a3;
  }
}
