/**
 * The CRC-32 engine of Global.cs: the reflected CRC-32 of ISO 3309 and zlib
 * that section 5.5 of the PNG specification (ISO/IEC 15948) prescribes for
 * chunk checksums. The engine keeps a 256-entry lookup table and exposes only
 * the raw table-driven update; seeding with 0xFFFFFFFF and the final XOR are
 * left to its callers.
 */
module Crc {
  import opened Encoding

  /** The generator polynomial 0x04C11DB7 with its bits reversed (reflected). */
  const Polynomial: bv32 := 0xEDB8_8320

  /** One bit of polynomial division: shift right, XOR the polynomial if the low bit was 1. */
  function Round(t: bv32): bv32
  {
    if t & 1 == 1 then (t >> 1) ^ Polynomial else t >> 1
  }

  /** `n` rounds of polynomial division. */
  function Rounds(t: bv32, n: nat): bv32
    decreases n
  {
    if n == 0 then t else Rounds(Round(t), n - 1)
  }

  /** Entry `i` of the lookup table: `i` after eight rounds. */
  function TableEntry(i: bv8): bv32
  {
    Rounds(i as bv32, 8)
  }

  /** A C# `byte` widened to a register value. */
  function ByteBits(b: byte): (r: bv32)
    ensures r < 0x100
  {
    b as bv32
  }

  /** The table index for one input byte: the low byte of the register XOR the byte, cast to `byte`. */
  function Index(crc: bv32, b: byte): bv8
  {
    ((crc & 0xFF) ^ ByteBits(b)) as bv8
  }

  /** The table-driven update for one byte, as the loop body of `ComputeChecksum`. */
  function Step(crc: bv32, b: byte): bv32
  {
    (crc >> 8) ^ TableEntry(Index(crc, b))
  }

  /** The table-driven CRC register after feeding `bytes` in order, starting from `init`. */
  function Crc(init: bv32, bytes: seq<byte>): bv32
    decreases |bytes|
  {
    if bytes == [] then init else Crc(Step(init, bytes[0]), bytes[1..])
  }

  /** The reference definition: the bit-at-a-time CRC register, each byte
      XORed into the low end and then eight rounds of division. */
  function BitwiseCrc(init: bv32, bytes: seq<byte>): bv32
    decreases |bytes|
  {
    if bytes == [] then init else BitwiseCrc(Rounds(init ^ ByteBits(bytes[0]), 8), bytes[1..])
  }

  /** The CRC stored in a PNG chunk: register seeded with all ones, result complemented. */
  function PngCrc(bytes: seq<byte>): bv32
  {
    Crc(0xFFFF_FFFF, bytes) ^ 0xFFFF_FFFF
  }

  /** The four bytes of a CRC, most significant first, as the chunk editor writes them. */
  function CrcBytes(c: bv32): (b: seq<byte>)
    ensures |b| == 4
  {
    BigEndian(c as int)
  }

  /** The register after four bytes. */
  lemma CrcOfFour(init: bv32, b: seq<byte>)
    requires |b| == 4
    ensures Crc(init, b) == Step(Step(Step(Step(init, b[0]), b[1]), b[2]), b[3])
  {
    var s1 := Step(init, b[0]);
    var s2 := Step(s1, b[1]);
    var s3 := Step(s2, b[2]);
    CrcFirst(init, b);
    CrcFirst(s1, b[1..]);
    CrcFirst(s2, b[2..]);
    CrcFirst(s3, b[3..]);
    assert b[1..][1..] == b[2..] && b[2..][1..] == b[3..] && b[3..][1..] == [];
  }

  /** The register after the first byte and the rest. */
  lemma CrcFirst(init: bv32, b: seq<byte>)
    requires b != []
    ensures Crc(init, b) == Crc(Step(init, b[0]), b[1..])
  {
  }

  /** Feeding two byte strings one after the other equals feeding their concatenation. */
  lemma {:induction false} CrcChain(init: bv32, a: seq<byte>, b: seq<byte>)
    ensures Crc(Crc(init, a), b) == Crc(init, a + b)
    decreases |a|
  {
    if a != [] {
      assert (a + b)[0] == a[0];
      assert (a + b)[1..] == a[1..] + b;
      CrcChain(Step(init, a[0]), a[1..], b);
    } else {
      assert a + b == b;
    }
  }

  /** The two-pass computation the chunk editor uses (type field, then data field, then
      the final complement) is the PNG CRC of the two fields together. */
  lemma PngCrcOfParts(a: seq<byte>, b: seq<byte>)
    ensures Crc(Crc(0xFFFF_FFFF, a), b) ^ 0xFFFF_FFFF == PngCrc(a + b)
  {
    CrcChain(0xFFFF_FFFF, a, b);
  }

  /** Feeding one more byte is one more `Step`. */
  lemma CrcSnoc(init: bv32, a: seq<byte>, b: byte)
    ensures Crc(init, a + [b]) == Step(Crc(init, a), b)
  {
    CrcChain(init, a, [b]);
    assert [b][1..] == [];
  }

  lemma RoundOdd(t: bv32)
    requires t & 1 == 1
    ensures Round(t) == (t >> 1) ^ Polynomial
  {
  }

  lemma RoundEven(t: bv32)
    requires t & 1 != 1
    ensures Round(t) == t >> 1
  {
  }

  lemma XorShiftFacts(a: bv32, b: bv32, p: bv32)
    ensures (a ^ b) >> 1 == (a >> 1) ^ (b >> 1)
    ensures (a ^ b) & 1 == 1 <==> ((a & 1 == 1) != (b & 1 == 1))
    ensures ((a >> 1) ^ p) ^ ((b >> 1) ^ p) == (a >> 1) ^ (b >> 1)
    ensures ((a >> 1) ^ p) ^ (b >> 1) == ((a >> 1) ^ (b >> 1)) ^ p
    ensures (a >> 1) ^ ((b >> 1) ^ p) == ((a >> 1) ^ (b >> 1)) ^ p
  {
  }

  /** Exclusive or, as a named operation so that the linearity lemmas below can be stated about it. */
  function Xor(x: bv32, y: bv32): bv32
  {
    x ^ y
  }

  /** A round is linear over XOR. */
  lemma RoundXor(a: bv32, b: bv32)
    ensures Round(Xor(a, b)) == Xor(Round(a), Round(b))
  {
    XorShiftFacts(a, b, Polynomial);
    if a & 1 == 1 { RoundOdd(a); } else { RoundEven(a); }
    if b & 1 == 1 { RoundOdd(b); } else { RoundEven(b); }
    if (a ^ b) & 1 == 1 { RoundOdd(a ^ b); } else { RoundEven(a ^ b); }
  }

  /** So are `n` rounds. */
  lemma {:induction false} RoundsXor(a: bv32, b: bv32, n: nat)
    ensures Rounds(Xor(a, b), n) == Xor(Rounds(a, n), Rounds(b, n))
    decreases n
  {
    if n > 0 {
      RoundXor(a, b);
      RoundsXor(Round(a), Round(b), n - 1);
    }
  }

  /** Each of the eight rounds sees a zero low bit, and the eight shifts make one shift by 8. */
  lemma ZeroLowByteFacts(a: bv32)
    requires a & 0xFF == 0
    ensures a & 1 != 1
    ensures (a >> 1) & 1 != 1
    ensures ((a >> 1) >> 1) & 1 != 1
    ensures (((a >> 1) >> 1) >> 1) & 1 != 1
    ensures ((((a >> 1) >> 1) >> 1) >> 1) & 1 != 1
    ensures (((((a >> 1) >> 1) >> 1) >> 1) >> 1) & 1 != 1
    ensures ((((((a >> 1) >> 1) >> 1) >> 1) >> 1) >> 1) & 1 != 1
    ensures (((((((a >> 1) >> 1) >> 1) >> 1) >> 1) >> 1) >> 1) & 1 != 1
    ensures ((((((((a >> 1) >> 1) >> 1) >> 1) >> 1) >> 1) >> 1) >> 1) == a >> 8
  {
  }

  /** A round on an even value only shifts it. */
  lemma RoundsEvenStep(t: bv32, n: nat)
    requires n > 0 && t & 1 != 1
    ensures Rounds(t, n) == Rounds(t >> 1, n - 1)
  {
  }

  /** Eight rounds on a value whose low byte is zero only shift it. */
  lemma RoundsOfHighBits(a: bv32)
    requires a & 0xFF == 0
    ensures Rounds(a, 8) == a >> 8
  {
    ZeroLowByteFacts(a);
    var a1 := a >> 1;
    var a2 := a1 >> 1;
    var a3 := a2 >> 1;
    var a4 := a3 >> 1;
    var a5 := a4 >> 1;
    var a6 := a5 >> 1;
    var a7 := a6 >> 1;
    RoundsEvenStep(a, 8);
    RoundsEvenStep(a1, 7);
    RoundsEvenStep(a2, 6);
    RoundsEvenStep(a3, 5);
    RoundsEvenStep(a4, 4);
    RoundsEvenStep(a5, 3);
    RoundsEvenStep(a6, 2);
    RoundsEvenStep(a7, 1);
  }

  /** The part of `crc ^ b` that selects the table entry. */
  function Low(crc: bv32, b: byte): bv32
  {
    (crc & 0xFF) ^ ByteBits(b)
  }

  /** The part of `crc ^ b` that is only shifted. */
  function High(crc: bv32, b: byte): bv32
  {
    (crc ^ ByteBits(b)) & 0xFFFF_FF00
  }

  /** The register splits into its high bytes and its low byte. */
  lemma SplitLowByte(crc: bv32, b: bv32)
    requires b < 0x100
    ensures crc ^ b == Xor((crc ^ b) & 0xFFFF_FF00, (crc & 0xFF) ^ b)
    ensures ((crc ^ b) & 0xFFFF_FF00) & 0xFF == 0
    ensures ((crc ^ b) & 0xFFFF_FF00) >> 8 == crc >> 8
  {
  }

  lemma SplitIsXor(crc: bv32, b: byte)
    ensures crc ^ ByteBits(b) == Xor(High(crc, b), Low(crc, b))
  {
    SplitLowByte(crc, ByteBits(b));
  }

  lemma HighRounds(crc: bv32, b: byte)
    ensures Rounds(High(crc, b), 8) == crc >> 8
  {
    SplitLowByte(crc, ByteBits(b));
    RoundsOfHighBits(High(crc, b));
  }

  lemma LowEntry(crc: bv32, b: byte)
    ensures TableEntry(Index(crc, b)) == Rounds(Low(crc, b), 8)
  {
    assert Index(crc, b) as bv32 == Low(crc, b);
  }

  lemma StepAsXor(crc: bv32, b: byte)
    ensures Step(crc, b) == Xor(crc >> 8, TableEntry(Index(crc, b)))
  {
  }

  /** The table-driven step computes the same register as eight bit-at-a-time rounds. */
  lemma StepIsBitwise(crc: bv32, b: byte)
    ensures Step(crc, b) == Rounds(crc ^ ByteBits(b), 8)
  {
    SplitIsXor(crc, b);
    HighRounds(crc, b);
    LowEntry(crc, b);
    StepAsXor(crc, b);
    RoundsXor(High(crc, b), Low(crc, b), 8);
  }

  /** The table-driven CRC agrees with the reference definition on every input. */
  lemma {:induction false} CrcIsBitwise(init: bv32, bytes: seq<byte>)
    ensures Crc(init, bytes) == BitwiseCrc(init, bytes)
    decreases |bytes|
  {
    if bytes != [] {
      StepIsBitwise(init, bytes[0]);
      CrcIsBitwise(Step(init, bytes[0]), bytes[1..]);
    }
  }

  /** Known entries of the table. */
  lemma TableSamples()
    ensures TableEntry(0) == 0
    ensures TableEntry(1) == 0x7707_3096
    ensures TableEntry(128) == Polynomial
    ensures TableEntry(255) == 0x2D02_EF8D
  {
  }

  /** One iteration of the table-driven loop extends the register by one byte. */
  lemma ChecksumStep(init: bv32, bytes: seq<byte>, i: int, crc: bv32, entry: bv32)
    requires 0 <= i < |bytes|
    requires crc == Crc(init, bytes[..i])
    requires entry == TableEntry(Index(crc, bytes[i]))
    ensures (crc >> 8) ^ entry == Crc(init, bytes[..i + 1])
  {
    StepByTable(crc, bytes[i], entry);
    CrcSnoc(init, bytes[..i], bytes[i]);
    SliceSnoc(bytes, i);
  }

  lemma StepByTable(crc: bv32, b: byte, entry: bv32)
    requires entry == TableEntry(Index(crc, b))
    ensures (crc >> 8) ^ entry == Step(crc, b)
  {
  }

  lemma SliceSnoc(s: seq<byte>, i: int)
    requires 0 <= i < |s|
    ensures s[..i + 1] == s[..i] + [s[i]]
  {
  }

  /** The static table of Global.cs. */
  class Global {
    var crcTable: array<bv32>

    ghost predicate Valid()
      reads this, crcTable
    {
      crcTable.Length == 0x100 &&
      forall i: bv8 :: crcTable[i as int] == TableEntry(i)
    }

    /** The static constructor: fills each entry by eight rounds of division. */
    constructor ()
      ensures Valid() && fresh(crcTable)
    {
      var table := new bv32[0x100];
      var i := 0;
      while i < table.Length
        invariant 0 <= i <= table.Length == 0x100
        invariant forall k: bv8 :: k as int < i ==> table[k as int] == TableEntry(k)
      {
        var temp := DivideByte(i as bv8);
        table[i] := temp;
        i := i + 1;
      }
      crcTable := table;
    }

    /** The inner loop of the static constructor: eight rounds of division of one byte. */
    static method DivideByte(n: bv8) returns (temp: bv32)
      ensures temp == TableEntry(n)
    {
      var poly := Polynomial;
      temp := n as bv32;
      var j := 8;
      while j > 0
        invariant 0 <= j <= 8
        invariant Rounds(temp, j) == TableEntry(n)
      {
        if temp & 1 == 1 {
          temp := (temp >> 1) ^ poly;
        } else {
          temp := temp >> 1;
        }
        j := j - 1;
      }
    }

    /** Runs the table-driven update over `bytes[0..length)`; a negative `length` runs
        no step, and a `length` beyond the end of `bytes` fails with an index error. */
    method ComputeChecksum(init: bv32, bytes: seq<byte>, length: int32) returns (crc: Option<bv32>)
      requires Valid()
      ensures crc.Some? <==> length as int <= |bytes|
      ensures crc.Some? ==> crc.value == Crc(init, bytes[..if length < 0 then 0 else length])
      ensures length as int == |bytes| ==> crc == Some(Crc(init, bytes))
    {
      var c := init;
      var n := if length < 0 then 0 else length as int;
      var i := 0;
      while i < length as int
        invariant 0 <= i <= n && i <= |bytes|
        invariant c == Crc(init, bytes[..i])
      {
        if i == |bytes| {
          return None;
        }
        var index := Index(c, bytes[i]);
        var entry := crcTable[index as int];
        ChecksumStep(init, bytes, i, c, entry);
        c := (c >> 8) ^ entry;
        i := i + 1;
      }
      assert i == n;
      assert n == |bytes| ==> bytes[..i] == bytes;
      return Some(c);
    }
  }
}
