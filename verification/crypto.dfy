/** The checksum engine: the reflected CRC-32 of IEEE 802.3 (polynomial
    0xEDB88320, initial register 0xFFFFFFFF, final XOR 0xFFFFFFFF) computed
    with a 256-entry lookup table, and the vendor checksum derived from it.

    The register is modelled as a `bv32`. `crypto.js` keeps it in a
    JavaScript number that `^` leaves as a signed 32-bit value and `>>>`
    reads back as unsigned; both carry the same 32 bits, which is all that
    a bit vector records. */
module Crypto {
  import opened Binary

  const Polynomial: bv32 := 0xEDB8_8320
  const InitialCrc: bv32 := 0xFFFF_FFFF
  const FinalXor: bv32 := 0xFFFF_FFFF
  /** XOR-ed into the CRC to obtain the checksum the game stores. */
  const VendorKey: bv32 := 0xB337_78CD

  /** One pass of the bit-at-a-time division: shift right, and fold the
      polynomial in when a one bit falls out. */
  function ShiftRound(c: bv32): bv32
  {
    if c & 1 == 1 then Polynomial ^ (c >> 1) else c >> 1
  }

  /** Eight passes, one per bit of a byte. */
  function Eight(c: bv32): bv32
  {
    ShiftRound(ShiftRound(ShiftRound(ShiftRound(ShiftRound(ShiftRound(ShiftRound(ShiftRound(c))))))))
  }

  /** The register after the first `j` of the eight passes. */
  function Passes(c: bv32, j: nat): bv32
    requires j <= 8
  {
    if j == 0 then c
    else if j == 1 then ShiftRound(c)
    else if j == 2 then ShiftRound(ShiftRound(c))
    else if j == 3 then ShiftRound(ShiftRound(ShiftRound(c)))
    else if j == 4 then ShiftRound(ShiftRound(ShiftRound(ShiftRound(c))))
    else if j == 5 then ShiftRound(ShiftRound(ShiftRound(ShiftRound(ShiftRound(c)))))
    else if j == 6 then ShiftRound(ShiftRound(ShiftRound(ShiftRound(ShiftRound(ShiftRound(c))))))
    else if j == 7 then ShiftRound(ShiftRound(ShiftRound(ShiftRound(ShiftRound(ShiftRound(ShiftRound(c)))))))
    else Eight(c)
  }

  /** What the table holds at index `i`: `i` after eight passes. */
  function TableEntry(i: bv32): bv32
  {
    Eight(i)
  }

  /** The table `crypto.js` computes once, as a value. */
  function CrcTable(): (t: seq<bv32>)
    ensures |t| == 256
  {
    seq(256, (k: int) requires 0 <= k < 256 => TableEntry(k as bv32))
  }

  /** A byte as the low eight bits of a register-sized value. */
  function Bits(b: byte): bv32
  {
    (b as bv8) as bv32
  }

  /** The update of the register by one byte: the entry the low byte of
      `crc ^ b` selects, XOR-ed with the register shifted down a byte. */
  function TableStep(table: seq<bv32>, crc: bv32, b: byte): bv32
    requires |table| == 256
  {
    table[((crc ^ Bits(b)) & 0xFF) as int] ^ (crc >> 8)
  }

  /** The register after feeding `data`, one byte at a time from the
      front, into a register that starts at `crc`. */
  function Fold(table: seq<bv32>, crc: bv32, data: seq<byte>): bv32
    requires |table| == 256
  {
    if |data| == 0 then crc else TableStep(table, Fold(table, crc, data[..|data| - 1]), data[|data| - 1])
  }

  /** The CRC-32 of `data`. */
  function Crc32(data: seq<byte>): (r: bv32)
    ensures |data| == 0 ==> r == 0
  {
    Fold(CrcTable(), InitialCrc, data) ^ FinalXor
  }

  /** The checksum the game stores: the CRC-32 masked with the vendor key,
      so that masking once more gives the CRC back. */
  function VendorChecksum(data: seq<byte>): (r: bv32)
    ensures r ^ VendorKey == Crc32(data)
    ensures |data| == 0 ==> r == VendorKey
  {
    Crc32(data) ^ VendorKey
  }

  /** Builds the lookup table as `crypto.js` does when the script loads. */
  method BuildTable() returns (table: seq<bv32>)
    ensures |table| == 256
    ensures forall k :: 0 <= k < 256 ==> table[k] == TableEntry(k as bv32)
    ensures table == CrcTable()
  {
    table := [];
    var i := 0;
    while i < 256
      invariant 0 <= i <= 256
      invariant |table| == i
      invariant forall k :: 0 <= k < i ==> table[k] == TableEntry(k as bv32)
    {
      var c: bv32 := i as bv32;
      var j := 0;
      while j < 8
        invariant 0 <= j <= 8
        invariant c == Passes(i as bv32, j)
      {
        c := ShiftRound(c);
        j := j + 1;
      }
      table := table + [c];
      i := i + 1;
    }
    assert forall k :: 0 <= k < 256 ==> table[k] == CrcTable()[k];
  }

  /** The loop of `calculateCRC32` over the data, for any 256-entry table. */
  method RunTable(table: seq<bv32>, data: seq<byte>) returns (r: bv32)
    requires |table| == 256
    ensures r == Fold(table, InitialCrc, data) ^ FinalXor
  {
    var crc := InitialCrc;
    var i := 0;
    while i < |data|
      invariant 0 <= i <= |data|
      invariant crc == Fold(table, InitialCrc, data[..i])
    {
      assert data[..i + 1][..i] == data[..i];
      crc := TableStep(table, crc, data[i]);
      i := i + 1;
    }
    assert data[..i] == data;
    r := crc ^ FinalXor;
  }

  /** `calculateCRC32`: the loop run with the table `crypto.js` builds. */
  method ComputeCrc32(table: seq<bv32>, data: seq<byte>) returns (r: bv32)
    requires table == CrcTable()
    ensures r == Crc32(data)
  {
    r := RunTable(table, data);
  }

  /** Feeding `a ++ b` is feeding `a` and then continuing with `b`. */
  lemma {:induction false} FoldAppend(table: seq<bv32>, crc: bv32, a: seq<byte>, b: seq<byte>)
    requires |table| == 256
    ensures Fold(table, crc, a + b) == Fold(table, Fold(table, crc, a), b)
    decreases |b|
  {
    if |b| == 0 {
      assert a + b == a;
    } else {
      var ab := a + b;
      assert ab[..|ab| - 1] == a + b[..|b| - 1];
      FoldAppend(table, crc, a, b[..|b| - 1]);
    }
  }

  /** Appending one byte performs one table step. */
  lemma FoldSnoc(table: seq<bv32>, crc: bv32, p: seq<byte>, b: byte)
    requires |table| == 256
    ensures Fold(table, crc, p + [b]) == TableStep(table, Fold(table, crc, p), b)
  {
    assert (p + [b])[..|p|] == p;
  }

  /** The ASCII string "123456789", the standard CRC check input. */
  const CheckInput: seq<byte> := [0x31, 0x32, 0x33, 0x34, 0x35, 0x36, 0x37, 0x38, 0x39]

  /** One table step from a known register. */
  lemma FoldKnown(table: seq<bv32>, p: seq<byte>, b: byte, c: bv32, c': bv32)
    requires |table| == 256
    requires Fold(table, InitialCrc, p) == c && TableStep(table, c, b) == c'
    ensures Fold(table, InitialCrc, p + [b]) == c'
  {
    FoldSnoc(table, InitialCrc, p, b);
  }

  /** The register after the check input, for any table that agrees with
      the CRC table at the eight indices the input selects. */
  lemma CheckFold(table: seq<bv32>)
    requires |table| == 256
    requires table[0xCE] == 0x7CDC_EFB7 && table[0x7A] == 0xB0D0_9822
    requires table[0x01] == 0x7707_3096 && table[0x19] == 0x646B_A8C0
    requires table[0x69] == 0x346E_D9FC && table[0xD5] == 0xF6B9_265B
    requires table[0xA9] == 0xAF0A_1B4C && table[0x58] == 0x65B0_D9C6
    ensures Fold(table, InitialCrc, CheckInput) == 0x340B_C6D9
  {
    var p: seq<byte> := [];
    FoldKnown(table, p, 0x31, 0xFFFF_FFFF, 0x7C23_1048); p := p + [0x31];
    FoldKnown(table, p, 0x32, 0x7C23_1048, 0xB0AC_BB32); p := p + [0x32];
    FoldKnown(table, p, 0x33, 0xB0AC_BB32, 0x77B7_9C2D); p := p + [0x33];
    FoldKnown(table, p, 0x34, 0x77B7_9C2D, 0x641C_1F5C); p := p + [0x34];
    FoldKnown(table, p, 0x35, 0x641C_1F5C, 0x340A_C5E3); p := p + [0x35];
    FoldKnown(table, p, 0x36, 0x340A_C5E3, 0xF68D_2C9E); p := p + [0x36];
    FoldKnown(table, p, 0x37, 0xF68D_2C9E, 0xAFFC_9660); p := p + [0x37];
    FoldKnown(table, p, 0x38, 0xAFFC_9660, 0x651F_2550); p := p + [0x38];
    FoldKnown(table, p, 0x39, 0x651F_2550, 0x340B_C6D9); p := p + [0x39];
    assert p == CheckInput;
  }

  // The eight table entries the check input selects.
  lemma EntryCE() ensures TableEntry(0xCE) == 0x7CDC_EFB7 {}
  lemma Entry7A() ensures TableEntry(0x7A) == 0xB0D0_9822 {}
  lemma Entry01() ensures TableEntry(0x01) == 0x7707_3096 {}
  lemma Entry19() ensures TableEntry(0x19) == 0x646B_A8C0 {}
  lemma Entry69() ensures TableEntry(0x69) == 0x346E_D9FC {}
  lemma EntryD5() ensures TableEntry(0xD5) == 0xF6B9_265B {}
  lemma EntryA9() ensures TableEntry(0xA9) == 0xAF0A_1B4C {}
  lemma Entry58() ensures TableEntry(0x58) == 0x65B0_D9C6 {}

  /** Every index of the CRC table holds its entry. */
  lemma TableHolds(k: bv32)
    requires k < 256
    ensures CrcTable()[k as int] == TableEntry(k)
  {
  }

  /** The standard check value: the CRC-32 of "123456789" is 0xCBF43926. */
  lemma CheckValue()
    ensures Crc32(CheckInput) == 0xCBF4_3926
  {
    EntryCE(); Entry7A(); Entry01(); Entry19(); Entry69(); EntryD5(); EntryA9(); Entry58();
    TableHolds(0xCE); TableHolds(0x7A); TableHolds(0x01); TableHolds(0x19);
    TableHolds(0x69); TableHolds(0xD5); TableHolds(0xA9); TableHolds(0x58);
    CheckFold(CrcTable());
  }
}
