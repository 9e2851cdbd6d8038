/** The two checksums of a PNG file (xtask/src/png.rs): CRC-32, computed four
    bits at a time from a table and proved to be the remainder of a polynomial
    division, and Adler-32, proved to be its two sums. */
module Checksums {
  import opened Text

  // ---- CRC-32 as polynomial division (RFC 2083 section 3.4) ----

  /** The powers of x in the generator, below x^32. */
  const POWERS: set<int> := {26, 23, 22, 16, 12, 11, 10, 8, 7, 5, 4, 2, 1, 0}

  /** The generator's coefficients below x^32, highest power first. */
  function Generator(): (g: seq<bool>)
    ensures |g| == 32 && forall i :: 0 <= i < 32 ==> (g[i] <==> 31 - i in POWERS)
  {
    seq(32, i requires 0 <= i < 32 => 31 - i in POWERS)
  }

  function Same(bit: bool, n: nat): (bits: seq<bool>)
    ensures |bits| == n && forall i :: 0 <= i < n ==> bits[i] == bit
  {
    seq(n, _ => bit)
  }

  function Xor(a: seq<bool>, b: seq<bool>): (r: seq<bool>)
    requires |a| == |b|
    ensures |r| == |a|
    ensures forall i :: 0 <= i < |a| ==> r[i] == (a[i] != b[i])
  {
    seq(|a|, i requires 0 <= i < |a| => a[i] != b[i])
  }

  /** `p` with its first 32 coefficients added to `front`. */
  function AddFront(front: seq<bool>, p: seq<bool>): (r: seq<bool>)
    requires |front| == 32 <= |p|
    ensures |r| == |p|
  {
    Xor(front, p[..32]) + p[32..]
  }

  /** Long division by the generator, over the two-element field: what is left
      of the polynomial `p`, given highest power first. */
  function Remainder(p: seq<bool>): (r: seq<bool>)
    requires |p| >= 32
    ensures |r| == 32
    decreases |p|
  {
    if |p| == 32 then p
    else if p[0] then Remainder(AddFront(Generator(), p[1..]))
    else Remainder(p[1..])
  }

  /** The number with only bit `i` set. */
  function Mask(i: nat): bv32
    requires i < 32
  {
    match i
    case 0 => 0x1 case 1 => 0x2 case 2 => 0x4 case 3 => 0x8
    case 4 => 0x10 case 5 => 0x20 case 6 => 0x40 case 7 => 0x80
    case 8 => 0x100 case 9 => 0x200 case 10 => 0x400 case 11 => 0x800
    case 12 => 0x1000 case 13 => 0x2000 case 14 => 0x4000 case 15 => 0x8000
    case 16 => 0x10000 case 17 => 0x20000 case 18 => 0x40000 case 19 => 0x80000
    case 20 => 0x100000 case 21 => 0x200000 case 22 => 0x400000 case 23 => 0x800000
    case 24 => 0x1000000 case 25 => 0x2000000 case 26 => 0x4000000 case 27 => 0x8000000
    case 28 => 0x10000000 case 29 => 0x20000000 case 30 => 0x40000000 case _ => 0x80000000
  }

  /** A number's bits, least significant first. */
  function Bits(c: bv32): (bits: seq<bool>)
    ensures |bits| == 32
    ensures forall i :: 0 <= i < 32 ==> bits[i] == (c & Mask(i) != 0)
  {
    seq(32, i requires 0 <= i < 32 => c & Mask(i) != 0)
  }

  function Wide(b: byte): bv32 {
    (b as bv8) as bv32
  }

  /** A message's bits, each byte's least significant first. */
  function MessageBits(data: seq<byte>): seq<bool> {
    if data == [] then [] else Bits(Wide(data[0]))[..8] + MessageBits(data[1..])
  }

  /** CRC-32 by its definition: the message followed by 32 zero bits, with its
      first 32 bits complemented, divided; and the remainder complemented. */
  function CrcBits(data: seq<byte>): seq<bool> {
    Xor(Same(true, 32), Remainder(AddFront(Same(true, 32), MessageBits(data) + Same(false, 32))))
  }

  // ---- CRC-32 a bit at a time, and four ----

  function CrcBit(c: bv32): bv32 {
    if c & 1 != 0 then (c >> 1) ^ 0xedb88320 else c >> 1
  }

  function CrcFour(c: bv32): bv32 {
    CrcBit(CrcBit(CrcBit(CrcBit(c))))
  }

  function CrcFold(c: bv32, data: seq<byte>): bv32
    decreases |data|
  {
    if data == [] then c else CrcFold(CrcFour(CrcFour(c ^ Wide(data[0]))), data[1..])
  }

  function Crc(data: seq<byte>): bv32 {
    CrcFold(0xffff_ffff, data) ^ 0xffff_ffff
  }

  const CRC_NIBBLES: seq<bv32> := [
    0x0000_0000, 0x1db7_1064, 0x3b6e_20c8, 0x26d9_30ac,
    0x76dc_4190, 0x6b6b_51f4, 0x4db2_6158, 0x5005_713c,
    0xedb8_8320, 0xf00f_9344, 0xd6d6_a3e8, 0xcb61_b38c,
    0x9b64_c2b0, 0x86d3_d2d4, 0xa00a_e278, 0xbdbd_f21c
  ]

  /** The table's entry for the low four bits. */
  function CrcNibble(c: bv32): bv32 {
    (c >> 4) ^ CRC_NIBBLES[(c & 0x0f) as int]
  }

  lemma NibbleEntry(low: bv32)
    requires low < 16
    ensures CRC_NIBBLES[low as int] == CrcFour(low)
  {
    assert low == 0 ==> low as int == 0;
    assert low == 1 ==> low as int == 1;
    assert low == 2 ==> low as int == 2;
    assert low == 3 ==> low as int == 3;
    assert low == 4 ==> low as int == 4;
    assert low == 5 ==> low as int == 5;
    assert low == 6 ==> low as int == 6;
    assert low == 7 ==> low as int == 7;
    assert low == 8 ==> low as int == 8;
    assert low == 9 ==> low as int == 9;
    assert low == 10 ==> low as int == 10;
    assert low == 11 ==> low as int == 11;
    assert low == 12 ==> low as int == 12;
    assert low == 13 ==> low as int == 13;
    assert low == 14 ==> low as int == 14;
    assert low == 15 ==> low as int == 15;
  }

  /** Four bits at once: the table holds what each nibble comes to. */
  lemma NibbleIsFourBits(c: bv32)
    ensures CrcNibble(c) == CrcFour(c)
  {
    NibbleEntry(c & 0x0f);
  }

  /** The source's running CRC. */
  class Crc32 {
    var c: bv32

    constructor ()
      ensures c == 0xffff_ffff
    {
      c := 0xffff_ffff;
    }

    method Write(data: seq<byte>)
      modifies this
      ensures c == CrcFold(old(c), data)
    {
      hide CrcFour;
      hide Wide;
      hide CrcNibble;
      var i := 0;
      while i < |data|
        invariant 0 <= i <= |data|
        invariant CrcFold(c, data[i..]) == CrcFold(old(c), data)
      {
        assert data[i..][1..] == data[i + 1..];
        c := c ^ Wide(data[i]);
        ghost var was := c;
        var n := 0;
        while n < 2
          invariant 0 <= n <= 2
          invariant c == if n == 0 then was else if n == 1 then CrcFour(was) else CrcFour(CrcFour(was))
        {
          NibbleIsFourBits(c);
          c := CrcNibble(c);
          n := n + 1;
        }
        i := i + 1;
      }
    }

    method Finish() returns (crc: bv32)
      ensures crc == c ^ 0xffff_ffff
    {
      crc := c ^ 0xffff_ffff;
    }
  }

  lemma {:induction false} CrcFoldJoins(c: bv32, a: seq<byte>, b: seq<byte>)
    ensures CrcFold(c, a + b) == CrcFold(CrcFold(c, a), b)
    decreases |a|
  {
    hide CrcFour;
    if a == [] {
      assert a + b == b;
    } else {
      assert (a + b)[1..] == a[1..] + b;
      CrcFoldJoins(CrcFour(CrcFour(c ^ Wide(a[0]))), a[1..], b);
    }
  }

  // ---- The two agree ----

  predicate SingleBit(m: bv32) {
    m != 0 && m & (m - 1) == 0
  }

  lemma MaskFacts(i: nat)
    requires i < 32
    ensures SingleBit(Mask(i))
    ensures i < 31 ==> Mask(i) & 0x8000_0000 == 0 && Mask(i + 1) == Mask(i) << 1
    ensures 0xffff_ffff & Mask(i) != 0
    ensures i >= 8 ==> Mask(i) & 0xff == 0
  {
    hide Mask, SingleBit;
    MaskIsBit(i);
    if i < 31 {
      MaskMoves(i);
      MaskIsNotTop(i);
    }
    MaskIsHigh(i);
  }

  lemma MaskIsBit(i: nat)
    requires i < 32
    ensures SingleBit(Mask(i)) && 0xffff_ffff & Mask(i) != 0
  {
  }

  lemma MaskMoves(i: nat)
    requires i < 31
    ensures Mask(i + 1) == Mask(i) << 1
  {
    match i {
      case 0 => case 1 => case 2 => case 3 => case 4 => case 5 => case 6 => case 7 =>
      case 8 => case 9 => case 10 => case 11 => case 12 => case 13 => case 14 => case 15 =>
      case 16 => case 17 => case 18 => case 19 => case 20 => case 21 => case 22 => case 23 =>
      case 24 => case 25 => case 26 => case 27 => case 28 => case 29 => case _ =>
    }
  }

  lemma MaskIsNotTop(i: nat)
    requires i < 31
    ensures Mask(i) & 0x8000_0000 == 0
  {
  }

  lemma MaskIsHigh(i: nat)
    requires i < 32
    ensures i >= 8 ==> Mask(i) & 0xff == 0
  {
  }

  lemma GeneratorMask(i: nat)
    requires i < 32
    ensures 0xedb8_8320 & Mask(i) != 0 <==> 31 - i in POWERS
  {
  }

  lemma XorAtBit(a: bv32, b: bv32, m: bv32)
    requires SingleBit(m)
    ensures ((a ^ b) & m != 0) == ((a & m != 0) != (b & m != 0))
  {
  }

  lemma ShiftAtBit(c: bv32, m: bv32)
    requires m & 0x8000_0000 == 0
    ensures ((c >> 1) & m != 0) == (c & (m << 1) != 0)
  {
  }

  lemma BitsXor(a: bv32, b: bv32)
    ensures Bits(a ^ b) == Xor(Bits(a), Bits(b))
  {
    hide Mask;
    forall i | 0 <= i < 32
      ensures Bits(a ^ b)[i] == Xor(Bits(a), Bits(b))[i]
    {
      MaskFacts(i);
      XorAtBit(a, b, Mask(i));
    }
  }

  lemma TopBit(c: bv32)
    ensures !Bits(c >> 1)[31] && Bits(c)[0] == (c & 1 != 0)
  {
    assert Mask(31) == 0x8000_0000 && Mask(0) == 1;
  }

  lemma BitsShift(c: bv32)
    ensures Bits(c >> 1) == Bits(c)[1..] + [false]
    ensures Bits(c)[0] == (c & 1 != 0)
  {
    TopBit(c);
    LowBitsShift(c);
  }

  lemma LowBitsShift(c: bv32)
    ensures Bits(c >> 1)[..31] == Bits(c)[1..]
  {
    hide Mask;
    var low, rest := Bits(c >> 1)[..31], Bits(c)[1..];
    forall i | 0 <= i < 31
      ensures low[i] == rest[i]
    {
      MaskFacts(i);
      ShiftAtBit(c, Mask(i));
    }
  }

  lemma GeneratorBits()
    ensures Bits(0xedb8_8320) == Generator()
    ensures Bits(0xffff_ffff) == Same(true, 32)
  {
    hide Mask;
    forall i | 0 <= i < 32
      ensures Bits(0xedb8_8320)[i] == Generator()[i] && Bits(0xffff_ffff)[i]
    {
      MaskFacts(i);
      GeneratorMask(i);
    }
  }

  lemma WideBits(b: byte)
    ensures Bits(Wide(b)) == Bits(Wide(b))[..8] + Same(false, 24)
  {
    hide Mask;
    forall i | 8 <= i < 32
      ensures !Bits(Wide(b))[i]
    {
      MaskFacts(i);
      HighBitClear(b as bv8, Mask(i));
    }
  }

  lemma HighBitClear(b: bv8, m: bv32)
    requires m & 0xff == 0
    ensures (b as bv32) & m == 0
  {
  }

  /** One step of the register is one step of the division. */
  lemma BitDivides(c: bv32, rest: seq<bool>)
    requires |rest| >= 32
    ensures Remainder(AddFront(Bits(c), [false] + rest)) == Remainder(AddFront(Bits(CrcBit(c)), rest))
  {
    hide CrcBit;
    hide Bits;
    BitsShift(c);
    StepDivides(Bits(c), rest);
    CrcBitBits(c);
  }

  /** One step of the division, in terms of the 32 coefficients in hand. */
  function StepBits(bits: seq<bool>): (r: seq<bool>)
    requires |bits| == 32
    ensures |r| == 32
  {
    var shifted := bits[1..] + [false];
    if bits[0] then Xor(shifted, Generator()) else shifted
  }

  lemma CrcBitBits(c: bv32)
    ensures Bits(CrcBit(c)) == StepBits(Bits(c))
  {
    hide Bits;
    BitsShift(c);
    BitsXor(c >> 1, 0xedb8_8320);
    GeneratorBits();
  }

  lemma StepDivides(bits: seq<bool>, rest: seq<bool>)
    requires |bits| == 32 <= |rest|
    ensures Remainder(AddFront(bits, [false] + rest)) == Remainder(AddFront(StepBits(bits), rest))
  {
    var p := AddFront(bits, [false] + rest);
    var shifted := AddFront(bits[1..] + [false], rest);
    assert p[0] == bits[0];
    assert p[1..] == shifted;
    assert AddFront(Generator(), shifted) == AddFront(Xor(bits[1..] + [false], Generator()), rest);
  }

  lemma FourDivide(c: bv32, rest: seq<bool>)
    requires |rest| >= 32
    ensures Remainder(AddFront(Bits(c), Same(false, 4) + rest)) == Remainder(AddFront(Bits(CrcFour(c)), rest))
  {
    var one, two, three := [false] + rest, [false] + ([false] + rest), [false] + ([false] + ([false] + rest));
    assert Same(false, 4) + rest == [false] + three;
    BitDivides(c, three);
    BitDivides(CrcBit(c), two);
    BitDivides(CrcBit(CrcBit(c)), one);
    BitDivides(CrcBit(CrcBit(CrcBit(c))), rest);
  }

  lemma {:induction false} FoldDivides(c: bv32, data: seq<byte>)
    ensures Bits(CrcFold(c, data)) == Remainder(AddFront(Bits(c), MessageBits(data) + Same(false, 32)))
    decreases |data|
  {
    hide CrcFour;
    hide Wide;
    hide Bits;
    if data == [] {
      assert AddFront(Bits(c), [] + Same(false, 32)) == Bits(c);
    } else {
      var rest := MessageBits(data[1..]) + Same(false, 32);
      var mixed := c ^ Wide(data[0]);
      BitsXor(c, Wide(data[0]));
      WideBits(data[0]);
      MixByte(Bits(c), Bits(Wide(data[0])), rest);
      assert MessageBits(data) + Same(false, 32) == Bits(Wide(data[0]))[..8] + rest;
      FourDivide(mixed, Same(false, 4) + rest);
      FourDivide(CrcFour(mixed), rest);
      FoldDivides(CrcFour(CrcFour(mixed)), data[1..]);
    }
  }

  /** Adding a byte to the register is adding it to the message. */
  lemma MixByte(register: seq<bool>, wide: seq<bool>, rest: seq<bool>)
    requires |register| == |wide| == 32 <= |rest| && wide == wide[..8] + Same(false, 24)
    ensures AddFront(register, wide[..8] + rest) ==
            AddFront(Xor(register, wide), Same(false, 4) + (Same(false, 4) + rest))
  {
    assert forall i :: 8 <= i < 32 ==> !wide[i];
  }

  /** The register's CRC is the polynomial one, for every message. */
  lemma CrcIsPolynomialDivision(data: seq<byte>)
    ensures Bits(Crc(data)) == CrcBits(data)
  {
    hide CrcFold;
    hide Remainder;
    hide Bits;
    GeneratorBits();
    FoldDivides(0xffff_ffff, data);
    BitsXor(CrcFold(0xffff_ffff, data), 0xffff_ffff);
  }

  // ---- Adler-32 (RFC 1950 section 8.2) ----

  const ADLER_MOD := 65521

  function Sum(data: seq<byte>): nat {
    if data == [] then 0 else data[0] + Sum(data[1..])
  }

  /** Each byte times how many bytes there are from it on. */
  function WeightedSum(data: seq<byte>): nat {
    if data == [] then 0 else |data| * data[0] + WeightedSum(data[1..])
  }

  /** Adler-32 by its two sums. */
  function Adler(data: seq<byte>): (sum: nat)
    ensures sum < 0x1_0000_0000
  {
    (|data| + WeightedSum(data)) % 65521 * 65536 + (1 + Sum(data)) % 65521
  }

  lemma {:induction false} SumsOfOneMore(data: seq<byte>, b: byte)
    ensures Sum(data + [b]) == Sum(data) + b
    ensures WeightedSum(data + [b]) == WeightedSum(data) + Sum(data) + b
  {
    if data == [] {
      assert data + [b] == [b];
      assert WeightedSum([b]) == 1 * b + WeightedSum([]);
    } else {
      assert (data + [b])[1..] == data[1..] + [b];
      SumsOfOneMore(data[1..], b);
      assert |data + [b]| * data[0] == |data| * data[0] + data[0];
    }
  }

  lemma EmptySums()
    ensures Sum([]) == 0 && WeightedSum([]) == 0
  {
  }

  lemma ModPlus(a: nat, b: nat)
    ensures (a % ADLER_MOD + b) % ADLER_MOD == (a + b) % ADLER_MOD
  {
  }

  method Adler32(data: seq<byte>) returns (sum: nat)
    ensures sum == Adler(data)
  {
    hide Sum;
    hide WeightedSum;
    EmptySums();
    var a, b := 1, 0;
    var i := 0;
    while i < |data|
      invariant 0 <= i <= |data|
      invariant a == (1 + Sum(data[..i])) % ADLER_MOD
      invariant b == (i + WeightedSum(data[..i])) % ADLER_MOD
    {
      assert data[..i + 1] == data[..i] + [data[i]];
      SumsOfOneMore(data[..i], data[i]);
      ModPlus(1 + Sum(data[..i]), data[i]);
      a := (a + data[i]) % ADLER_MOD;
      ModPlus(i + WeightedSum(data[..i]), a);
      ModPlus(1 + Sum(data[..i + 1]), i + WeightedSum(data[..i]));
      b := (b + a) % ADLER_MOD;
      i := i + 1;
    }
    assert data[..|data|] == data;
    sum := b * 65536 + a;
  }
}
