/**
  CRC-32C as in crc32 of src/util.rs: bits taken from the lowest one up, and a table for whole bytes
  (section 12.1 of RFC 3720, Appendix B of RFC 4960).
 */
module Crc32Table {
  import opened Sequences

  /** CRC32_TABLE, in rows of sixteen. */
  const ROWS: seq<seq<bv32>> := [
    [0x00000000, 0xf26b8303, 0xe13b70f7, 0x1350f3f4,
     0xc79a971f, 0x35f1141c, 0x26a1e7e8, 0xd4ca64eb,
     0x8ad958cf, 0x78b2dbcc, 0x6be22838, 0x9989ab3b,
     0x4d43cfd0, 0xbf284cd3, 0xac78bf27, 0x5e133c24],
    [0x105ec76f, 0xe235446c, 0xf165b798, 0x030e349b,
     0xd7c45070, 0x25afd373, 0x36ff2087, 0xc494a384,
     0x9a879fa0, 0x68ec1ca3, 0x7bbcef57, 0x89d76c54,
     0x5d1d08bf, 0xaf768bbc, 0xbc267848, 0x4e4dfb4b],
    [0x20bd8ede, 0xd2d60ddd, 0xc186fe29, 0x33ed7d2a,
     0xe72719c1, 0x154c9ac2, 0x061c6936, 0xf477ea35,
     0xaa64d611, 0x580f5512, 0x4b5fa6e6, 0xb93425e5,
     0x6dfe410e, 0x9f95c20d, 0x8cc531f9, 0x7eaeb2fa],
    [0x30e349b1, 0xc288cab2, 0xd1d83946, 0x23b3ba45,
     0xf779deae, 0x05125dad, 0x1642ae59, 0xe4292d5a,
     0xba3a117e, 0x4851927d, 0x5b016189, 0xa96ae28a,
     0x7da08661, 0x8fcb0562, 0x9c9bf696, 0x6ef07595],
    [0x417b1dbc, 0xb3109ebf, 0xa0406d4b, 0x522bee48,
     0x86e18aa3, 0x748a09a0, 0x67dafa54, 0x95b17957,
     0xcba24573, 0x39c9c670, 0x2a993584, 0xd8f2b687,
     0x0c38d26c, 0xfe53516f, 0xed03a29b, 0x1f682198],
    [0x5125dad3, 0xa34e59d0, 0xb01eaa24, 0x42752927,
     0x96bf4dcc, 0x64d4cecf, 0x77843d3b, 0x85efbe38,
     0xdbfc821c, 0x2997011f, 0x3ac7f2eb, 0xc8ac71e8,
     0x1c661503, 0xee0d9600, 0xfd5d65f4, 0x0f36e6f7],
    [0x61c69362, 0x93ad1061, 0x80fde395, 0x72966096,
     0xa65c047d, 0x5437877e, 0x4767748a, 0xb50cf789,
     0xeb1fcbad, 0x197448ae, 0x0a24bb5a, 0xf84f3859,
     0x2c855cb2, 0xdeeedfb1, 0xcdbe2c45, 0x3fd5af46],
    [0x7198540d, 0x83f3d70e, 0x90a324fa, 0x62c8a7f9,
     0xb602c312, 0x44694011, 0x5739b3e5, 0xa55230e6,
     0xfb410cc2, 0x092a8fc1, 0x1a7a7c35, 0xe811ff36,
     0x3cdb9bdd, 0xceb018de, 0xdde0eb2a, 0x2f8b6829],
    [0x82f63b78, 0x709db87b, 0x63cd4b8f, 0x91a6c88c,
     0x456cac67, 0xb7072f64, 0xa457dc90, 0x563c5f93,
     0x082f63b7, 0xfa44e0b4, 0xe9141340, 0x1b7f9043,
     0xcfb5f4a8, 0x3dde77ab, 0x2e8e845f, 0xdce5075c],
    [0x92a8fc17, 0x60c37f14, 0x73938ce0, 0x81f80fe3,
     0x55326b08, 0xa759e80b, 0xb4091bff, 0x466298fc,
     0x1871a4d8, 0xea1a27db, 0xf94ad42f, 0x0b21572c,
     0xdfeb33c7, 0x2d80b0c4, 0x3ed04330, 0xccbbc033],
    [0xa24bb5a6, 0x502036a5, 0x4370c551, 0xb11b4652,
     0x65d122b9, 0x97baa1ba, 0x84ea524e, 0x7681d14d,
     0x2892ed69, 0xdaf96e6a, 0xc9a99d9e, 0x3bc21e9d,
     0xef087a76, 0x1d63f975, 0x0e330a81, 0xfc588982],
    [0xb21572c9, 0x407ef1ca, 0x532e023e, 0xa145813d,
     0x758fe5d6, 0x87e466d5, 0x94b49521, 0x66df1622,
     0x38cc2a06, 0xcaa7a905, 0xd9f75af1, 0x2b9cd9f2,
     0xff56bd19, 0x0d3d3e1a, 0x1e6dcdee, 0xec064eed],
    [0xc38d26c4, 0x31e6a5c7, 0x22b65633, 0xd0ddd530,
     0x0417b1db, 0xf67c32d8, 0xe52cc12c, 0x1747422f,
     0x49547e0b, 0xbb3ffd08, 0xa86f0efc, 0x5a048dff,
     0x8ecee914, 0x7ca56a17, 0x6ff599e3, 0x9d9e1ae0],
    [0xd3d3e1ab, 0x21b862a8, 0x32e8915c, 0xc083125f,
     0x144976b4, 0xe622f5b7, 0xf5720643, 0x07198540,
     0x590ab964, 0xab613a67, 0xb831c993, 0x4a5a4a90,
     0x9e902e7b, 0x6cfbad78, 0x7fab5e8c, 0x8dc0dd8f],
    [0xe330a81a, 0x115b2b19, 0x020bd8ed, 0xf0605bee,
     0x24aa3f05, 0xd6c1bc06, 0xc5914ff2, 0x37faccf1,
     0x69e9f0d5, 0x9b8273d6, 0x88d28022, 0x7ab90321,
     0xae7367ca, 0x5c18e4c9, 0x4f48173d, 0xbd23943e],
    [0xf36e6f75, 0x0105ec76, 0x12551f82, 0xe03e9c81,
     0x34f4f86a, 0xc69f7b69, 0xd5cf889d, 0x27a40b9e,
     0x79b737ba, 0x8bdcb4b9, 0x988c474d, 0x6ae7c44e,
     0xbe2da0a5, 0x4c4623a6, 0x5f16d052, 0xad7d5351]
  ]

  const TABLE := Flatten(ROWS)

  ghost predicate RowLengths(rows: seq<seq<bv32>>) {
    forall h :: 0 <= h < |rows| ==> |rows[h]| == 16
  }

  lemma {:induction false} FlattenAt(rows: seq<seq<bv32>>, h: nat, l: nat)
    requires RowLengths(rows) && h < |rows| && l < 16
    ensures 16 * h + l < |Flatten(rows)| == 16 * |rows| && Flatten(rows)[16 * h + l] == rows[h][l]
    decreases rows
  {
    assert |rows[0]| == 16;
    if h > 0 {
      FlattenAt(rows[1..], h - 1, l);
    } else if |rows| > 1 {
      FlattenAt(rows[1..], 0, 0);
    } else {
      assert Flatten(rows[1..]) == [];
    }
  }
}

module Crc32 {
  import opened BitStreams
  import opened Crc32Table
  import opened PolyDivision
  import opened Sequences

  // ---------- The register as coefficients ----------

  function Lowest(c: bv32): bv1 {
    (c & 1) as bv1
  }

  /** Bit `i`, counted from the lowest. */
  function Bit(c: bv32, i: nat): bv1 {
    if i == 0 then Lowest(c) else Bit(c >> 1, i - 1)
  }

  predicate Set(c: bv32, i: nat) {
    Bit(c, i) == 1
  }

  function Reg(c: bv32): (r: seq<bool>)
    ensures |r| == 32
  {
    seq(32, i requires 0 <= i < 32 => Set(c, i))
  }

  /** The divisor without its leading coefficient. */
  const POLY := Reg(0x82f63b78)

  const ONES := Reg(0xffff_ffff)

  function ByteBits(b: bv8): (bits: seq<bool>)
    ensures |bits| == 8
  {
    Reg(b as bv32)[..8]
  }

  function Bits(data: seq<bv8>): (bits: seq<bool>)
    ensures |bits| == 8 * |data|
  {
    if data == [] then [] else Bits(data[..|data| - 1]) + ByteBits(data[|data| - 1])
  }

  /** The register after the data: bitwise reflected division, from a register of ones. */
  function Remainder(data: seq<bv8>): (r: seq<bool>)
    ensures |r| == 32
  {
    Run(POLY, ONES, Bits(data))
  }

  /** CRC-32C: the complement of the remainder. */
  ghost predicate IsCrc(crc: bv32, data: seq<bv8>) {
    Reg(crc) == Xor(Remainder(data), ONES)
  }

  predicate XorAt(c: bv32, d: bv32, i: nat) {
    Bit(c ^ d, i) == Bit(c, i) ^ Bit(d, i)
  }

  lemma LowestXor(c: bv32, d: bv32)
    ensures Lowest(c ^ d) == Lowest(c) ^ Lowest(d)
  {
  }

  lemma RightXor(c: bv32, d: bv32)
    ensures (c ^ d) >> 1 == (c >> 1) ^ (d >> 1)
  {
  }

  lemma XorAtZero(c: bv32, d: bv32)
    ensures XorAt(c, d, 0)
  {
    LowestXor(c, d);
  }

  lemma XorAtNext(c: bv32, d: bv32, i: nat)
    requires i > 0 && XorAt(c >> 1, d >> 1, i - 1)
    ensures XorAt(c, d, i)
  {
    RightXor(c, d);
    assert Bit(c ^ d, i) == Bit((c ^ d) >> 1, i - 1);
    assert Bit(c, i) == Bit(c >> 1, i - 1);
    assert Bit(d, i) == Bit(d >> 1, i - 1);
  }

  lemma {:induction false} BitXor(c: bv32, d: bv32, i: nat)
    ensures XorAt(c, d, i)
    decreases i
  {
    if i == 0 {
      XorAtZero(c, d);
      return;
    }
    BitXor(c >> 1, d >> 1, i - 1);
    XorAtNext(c, d, i);
  }

  lemma OneBit(x: bv1, y: bv1)
    ensures x ^ y == 1 <==> (x == 1) != (y == 1)
  {
  }

  lemma RegXor(c: bv32, d: bv32)
    ensures Reg(c ^ d) == Xor(Reg(c), Reg(d))
  {
    forall i | 0 <= i < 32 ensures Set(c ^ d, i) == (Set(c, i) != Set(d, i)) {
      BitXor(c, d, i);
      OneBit(Bit(c, i), Bit(d, i));
    }
  }

  lemma BitTwo(c: bv32, i: nat)
    requires 2 <= i
    ensures Bit(c, i) == Bit(c >> 2, i - 2)
  {
    assert (c >> 1) >> 1 == c >> 2;
  }

  lemma BitFour(c: bv32, i: nat)
    requires 4 <= i
    ensures Bit(c, i) == Bit(c >> 4, i - 4)
  {
    BitTwo(c, i);
    BitTwo(c >> 2, i - 2);
    assert (c >> 2) >> 2 == c >> 4;
  }

  lemma BitEight(c: bv32, i: nat)
    requires 8 <= i
    ensures Bit(c, i) == Bit(c >> 8, i - 8)
  {
    BitFour(c, i);
    BitFour(c >> 4, i - 4);
    assert (c >> 4) >> 4 == c >> 8;
  }

  lemma {:induction false} BitOfZero(i: nat)
    ensures Bit(0, i) == 0
  {
    if i > 0 {
      assert (0 as bv32) >> 1 == 0;
      BitOfZero(i - 1);
    }
  }

  lemma BitSixteen(c: bv32, i: nat)
    requires 16 <= i
    ensures Bit(c, i) == Bit(c >> 16, i - 16)
  {
    BitEight(c, i);
    BitEight(c >> 8, i - 8);
    assert (c >> 8) >> 8 == c >> 16;
  }

  /** Beyond the highest bit there are only zeros. */
  lemma BitBeyond(c: bv32, k: nat)
    ensures Bit(c, 32 + k) == 0
  {
    BitSixteen(c, 32 + k);
    BitSixteen(c >> 16, 16 + k);
    assert (c >> 16) >> 16 == 0;
    BitOfZero(k);
  }

  lemma RegRight(c: bv32)
    ensures Reg(c >> 1) == Reg(c)[1..] + [false]
  {
    BitBeyond(c, 0);
    var r := Reg(c >> 1);
    forall i | 0 <= i < 32 ensures r[i] == if i < 31 then Set(c, i + 1) else false {
      assert Bit(c, i + 1) == Bit(c >> 1, i);
    }
  }

  lemma BitRightByte(c: bv32, i: nat)
    requires i < 32
    ensures Set(c >> 8, i) == if i < 24 then Set(c, i + 8) else false
  {
    BitEight(c, i + 8);
    if i >= 24 {
      BitBeyond(c, i - 24);
    }
  }

  lemma RegRightByte(c: bv32)
    ensures Reg(c >> 8) == Reg(c)[8..] + Zeros(8)
  {
    var r := Reg(c >> 8);
    forall i | 0 <= i < 32 ensures r[i] == if i < 24 then Set(c, i + 8) else false {
      BitRightByte(c, i);
    }
  }

  lemma SmallBit(x: bv32, i: nat)
    requires x <= 0xff && 8 <= i
    ensures !Set(x, i)
  {
    BitEight(x, i);
    assert x >> 8 == 0;
    BitOfZero(i - 8);
  }

  lemma ByteReg(b: bv8)
    ensures Reg(b as bv32) == ByteBits(b) + Zeros(24)
  {
    var r := Reg(b as bv32);
    forall i | 8 <= i < 32 ensures r[i] == false {
      SmallBit(b as bv32, i);
    }
  }

  /** The lowest `n` bits are the same. */
  predicate Agree(c: bv32, d: bv32, n: nat) {
    n == 0 || (Lowest(c) == Lowest(d) && Agree(c >> 1, d >> 1, n - 1))
  }

  lemma {:induction false} AgreeAt(c: bv32, d: bv32, n: nat, i: nat)
    requires Agree(c, d, n) && i < n
    ensures Bit(c, i) == Bit(d, i)
    decreases n
  {
    if i == 0 {
      return;
    }
    AgreeAt(c >> 1, d >> 1, n - 1, i - 1);
  }

  lemma LowestOfByte(c: bv32, m: bv32)
    requires m & 1 == 1
    ensures Lowest(c & m) == Lowest(c)
    ensures (c & m) >> 1 == (c >> 1) & (m >> 1)
  {
  }

  /** `m` has its lowest `n` bits set. */
  predicate LowOnes(m: bv32, n: nat) {
    n == 0 || (m & 1 == 1 && LowOnes(m >> 1, n - 1))
  }

  lemma {:induction false} MaskAgrees(c: bv32, m: bv32, n: nat)
    requires LowOnes(m, n)
    ensures Agree(c & m, c, n)
    decreases n
  {
    if n == 0 {
      return;
    }
    LowestOfByte(c, m);
    MaskAgrees(c >> 1, m >> 1, n - 1);
  }

  lemma ByteMask()
    ensures LowOnes(0xff, 8)
  {
    assert (1 as bv32) >> 1 == 0 && (3 as bv32) >> 1 == 1 && (7 as bv32) >> 1 == 3 && (0xf as bv32) >> 1 == 7;
    assert LowOnes(1, 1);
    assert LowOnes(3, 2);
    assert LowOnes(7, 3);
    assert LowOnes(0xf, 4);
    assert (0x1f as bv32) >> 1 == 0xf && (0x3f as bv32) >> 1 == 0x1f && (0x7f as bv32) >> 1 == 0x3f;
    assert LowOnes(0x1f, 5);
    assert LowOnes(0x3f, 6);
    assert LowOnes(0x7f, 7);
  }

  lemma RegLowByte(c: bv32)
    ensures Reg(c & 0xff) == Reg(c)[..8] + Zeros(24)
  {
    ByteMask();
    MaskAgrees(c, 0xff, 8);
    var d := c & 0xff;
    var r := Reg(d);
    forall i | 0 <= i < 32 ensures r[i] == if i < 8 then Set(c, i) else false {
      if i < 8 {
        AgreeAt(d, c, 8, i);
      } else {
        SmallBit(d, i);
      }
    }
  }

  // ---------- Registers determine numbers ----------

  lemma LowBit(c: bv32)
    ensures Reg(c)[0] == (c & 1 != 0)
  {
  }

  lemma {:induction false} RegZero(x: bv32)
    requires Reg(x) == Zeros(32)
    ensures x == 0
    decreases x
  {
    if x != 0 {
      RegRight(x);
      assert Reg(x >> 1) == Zeros(32);
      assert x >> 1 < x;
      RegZero(x >> 1);
      LowBit(x);
      NoBits(x);
      assert false;
    }
  }

  lemma NoBits(x: bv32)
    requires x >> 1 == 0 && x & 1 == 0
    ensures x == 0
  {
  }

  lemma RegInjective(c: bv32, d: bv32)
    requires Reg(c) == Reg(d)
    ensures c == d
  {
    RegXor(c, d);
    XorSelf(Reg(c));
    RegZero(c ^ d);
    assert c ^ d == 0 ==> c == d;
  }

  // ---------- The table ----------

  /** The reflected division step on a zero bit. */
  function Shift(c: bv32): bv32 {
    if c & 1 != 0 then (c >> 1) ^ 0x82f63b78 else c >> 1
  }

  function Shifts(c: bv32, n: nat): bv32 {
    if n == 0 then c else Shift(Shifts(c, n - 1))
  }

  /** One reflected step is one division step. */
  lemma ShiftIsStep(c: bv32)
    ensures Reg(Shift(c)) == Step(POLY, Reg(c), false)
  {
    RegRight(c);
    RegXor(c >> 1, 0x82f63b78);
    LowBit(c);
  }

  lemma ShiftsAreSteps(c: bv32, n: nat)
    ensures Reg(Shifts(c, n)) == Run(POLY, Reg(c), Zeros(n))
  {
    var reg := (i: nat) => Reg(Shifts(c, i));
    forall i: nat ensures reg(i + 1) == Step(POLY, reg(i), false) {
      ShiftIsStep(Shifts(c, i));
    }
    StepsAreRun(POLY, reg, n);
  }

  lemma EightShifts(c: bv32)
    ensures Shifts(c, 8) == Shift(Shift(Shift(Shift(Shift(Shift(Shift(Shift(c))))))))
  {
    var c2 := Shift(Shift(c));
    var c4 := Shift(Shift(c2));
    var c6 := Shift(Shift(c4));
    assert Shifts(c, 1) == Shift(c);
    assert Shifts(c, 2) == c2;
    assert Shifts(c, 3) == Shift(c2);
    assert Shifts(c, 4) == c4;
    assert Shifts(c, 5) == Shift(c4);
    assert Shifts(c, 6) == c6;
    assert Shifts(c, 7) == Shift(c6);
  }

  lemma EvaluateEight(x: bv32, y: bv32)
    requires y == Shift(Shift(Shift(Shift(Shift(Shift(Shift(Shift(x))))))))
    ensures Reg(y) == Run(POLY, Reg(x), Zeros(8))
  {
    EightShifts(x);
    ShiftsAreSteps(x, 8);
  }

  predicate Summed(row: seq<bv32>, low: seq<bv32>, l: nat)
    requires |row| == |low| == 16 && l < 16
  {
    row[l] == row[0] ^ low[l]
  }

  /** Every entry of a row is its first entry plus the entry for the low four bits. */
  predicate LinearRow(row: seq<bv32>, low: seq<bv32>) {
    && |row| == |low| == 16
    && Summed(row, low, 0) && Summed(row, low, 1) && Summed(row, low, 2) && Summed(row, low, 3)
    && Summed(row, low, 4) && Summed(row, low, 5) && Summed(row, low, 6) && Summed(row, low, 7)
    && Summed(row, low, 8) && Summed(row, low, 9) && Summed(row, low, 10) && Summed(row, low, 11)
    && Summed(row, low, 12) && Summed(row, low, 13) && Summed(row, low, 14) && Summed(row, low, 15)
  }

  lemma LinearRowAt(row: seq<bv32>, low: seq<bv32>, l: nat)
    requires LinearRow(row, low) && l < 16
    ensures Summed(row, low, l)
  {
  }

  lemma RegSum(e: bv32, a: bv32, b: bv32)
    requires e == a ^ b
    ensures Reg(e) == Xor(Reg(a), Reg(b))
  {
    RegXor(a, b);
  }

  /** The same in terms of registers. */
  ghost predicate RegRow(row: seq<bv32>, low: seq<bv32>) {
    && |row| == |low| == 16
    && forall l :: 0 <= l < 16 ==> Reg(row[l]) == Xor(Reg(row[0]), Reg(low[l]))
  }

  lemma LinearRowRegs(row: seq<bv32>, low: seq<bv32>)
    requires LinearRow(row, low)
    ensures RegRow(row, low)
  {
    forall l | 0 <= l < 16 ensures Reg(row[l]) == Xor(Reg(row[0]), Reg(low[l])) {
      LinearRowAt(row, low, l);
      RegSum(row[l], row[0], low[l]);
    }
  }

  ghost predicate FullRows(rows: seq<seq<bv32>>) {
    |rows| == 16 && |rows[0]| == 16
  }

  /** What is checked of one row: it is linear, and the entries for `h << 4` and `h` are right. */
  ghost predicate GoodRow(rows: seq<seq<bv32>>, h: bv32)
    requires FullRows(rows) && h < 16
  {
    && RegRow(rows[h as int], rows[0])
    && Reg(rows[h as int][0]) == Run(POLY, Reg(h << 4), Zeros(8))
    && Reg(rows[0][h as int]) == Run(POLY, Reg(h), Zeros(8))
  }

  lemma Row0()
    ensures FullRows(ROWS) && GoodRow(ROWS, 0x0)
  {
    EvaluateEight(0x00, ROWS[0][0]);
    LinearRowRegs(ROWS[0], ROWS[0]);
  }

  lemma Row1()
    ensures FullRows(ROWS) && GoodRow(ROWS, 0x1)
  {
    EvaluateEight(0x10, ROWS[1][0]);
    EvaluateEight(0x01, ROWS[0][1]);
    LinearRowRegs(ROWS[1], ROWS[0]);
  }

  lemma Row2()
    ensures FullRows(ROWS) && GoodRow(ROWS, 0x2)
  {
    EvaluateEight(0x20, ROWS[2][0]);
    EvaluateEight(0x02, ROWS[0][2]);
    LinearRowRegs(ROWS[2], ROWS[0]);
  }

  lemma Row3()
    ensures FullRows(ROWS) && GoodRow(ROWS, 0x3)
  {
    EvaluateEight(0x30, ROWS[3][0]);
    EvaluateEight(0x03, ROWS[0][3]);
    LinearRowRegs(ROWS[3], ROWS[0]);
  }

  lemma Row4()
    ensures FullRows(ROWS) && GoodRow(ROWS, 0x4)
  {
    EvaluateEight(0x40, ROWS[4][0]);
    EvaluateEight(0x04, ROWS[0][4]);
    LinearRowRegs(ROWS[4], ROWS[0]);
  }

  lemma Row5()
    ensures FullRows(ROWS) && GoodRow(ROWS, 0x5)
  {
    EvaluateEight(0x50, ROWS[5][0]);
    EvaluateEight(0x05, ROWS[0][5]);
    LinearRowRegs(ROWS[5], ROWS[0]);
  }

  lemma Row6()
    ensures FullRows(ROWS) && GoodRow(ROWS, 0x6)
  {
    EvaluateEight(0x60, ROWS[6][0]);
    EvaluateEight(0x06, ROWS[0][6]);
    LinearRowRegs(ROWS[6], ROWS[0]);
  }

  lemma Row7()
    ensures FullRows(ROWS) && GoodRow(ROWS, 0x7)
  {
    EvaluateEight(0x70, ROWS[7][0]);
    EvaluateEight(0x07, ROWS[0][7]);
    LinearRowRegs(ROWS[7], ROWS[0]);
  }

  lemma Row8()
    ensures FullRows(ROWS) && GoodRow(ROWS, 0x8)
  {
    EvaluateEight(0x80, ROWS[8][0]);
    EvaluateEight(0x08, ROWS[0][8]);
    LinearRowRegs(ROWS[8], ROWS[0]);
  }

  lemma Row9()
    ensures FullRows(ROWS) && GoodRow(ROWS, 0x9)
  {
    EvaluateEight(0x90, ROWS[9][0]);
    EvaluateEight(0x09, ROWS[0][9]);
    LinearRowRegs(ROWS[9], ROWS[0]);
  }

  lemma Row10()
    ensures FullRows(ROWS) && GoodRow(ROWS, 0xa)
  {
    EvaluateEight(0xa0, ROWS[10][0]);
    EvaluateEight(0x0a, ROWS[0][10]);
    LinearRowRegs(ROWS[10], ROWS[0]);
  }

  lemma Row11()
    ensures FullRows(ROWS) && GoodRow(ROWS, 0xb)
  {
    EvaluateEight(0xb0, ROWS[11][0]);
    EvaluateEight(0x0b, ROWS[0][11]);
    LinearRowRegs(ROWS[11], ROWS[0]);
  }

  lemma Row12()
    ensures FullRows(ROWS) && GoodRow(ROWS, 0xc)
  {
    EvaluateEight(0xc0, ROWS[12][0]);
    EvaluateEight(0x0c, ROWS[0][12]);
    LinearRowRegs(ROWS[12], ROWS[0]);
  }

  lemma Row13()
    ensures FullRows(ROWS) && GoodRow(ROWS, 0xd)
  {
    EvaluateEight(0xd0, ROWS[13][0]);
    EvaluateEight(0x0d, ROWS[0][13]);
    LinearRowRegs(ROWS[13], ROWS[0]);
  }

  lemma Row14()
    ensures FullRows(ROWS) && GoodRow(ROWS, 0xe)
  {
    EvaluateEight(0xe0, ROWS[14][0]);
    EvaluateEight(0x0e, ROWS[0][14]);
    LinearRowRegs(ROWS[14], ROWS[0]);
  }

  lemma Row15()
    ensures FullRows(ROWS) && GoodRow(ROWS, 0xf)
  {
    EvaluateEight(0xf0, ROWS[15][0]);
    EvaluateEight(0x0f, ROWS[0][15]);
    LinearRowRegs(ROWS[15], ROWS[0]);
  }

  ghost predicate GoodRows(rows: seq<seq<bv32>>) {
    FullRows(rows) && forall h: bv32 :: h < 16 ==> GoodRow(rows, h)
  }

  lemma AllRows(rows: seq<seq<bv32>>)
    requires FullRows(rows)
    requires GoodRow(rows, 0) && GoodRow(rows, 1) && GoodRow(rows, 2) && GoodRow(rows, 3)
    requires GoodRow(rows, 4) && GoodRow(rows, 5) && GoodRow(rows, 6) && GoodRow(rows, 7)
    requires GoodRow(rows, 8) && GoodRow(rows, 9) && GoodRow(rows, 10) && GoodRow(rows, 11)
    requires GoodRow(rows, 12) && GoodRow(rows, 13) && GoodRow(rows, 14) && GoodRow(rows, 15)
    ensures GoodRows(rows)
  {
  }

  lemma RowsAreGood()
    ensures GoodRows(ROWS)
  {
    Row0(); Row1(); Row2(); Row3(); Row4(); Row5(); Row6(); Row7();
    Row8(); Row9(); Row10(); Row11(); Row12(); Row13(); Row14(); Row15();
    AllRows(ROWS);
  }

  /** Every entry is the division of its index by eight steps. */
  ghost predicate IsTable(table: seq<bv32>) {
    |table| == 256 && forall x: bv32 :: x <= 0xff ==> Reg(table[x as int]) == Run(POLY, Reg(x), Zeros(8))
  }

  lemma SumOfSteps(x: bv32, y: bv32, sum: bv32, n: nat)
    requires Reg(sum) == Xor(Reg(x), Reg(y))
    ensures Run(POLY, Reg(sum), Zeros(n)) == Xor(Run(POLY, Reg(x), Zeros(n)), Run(POLY, Reg(y), Zeros(n)))
  {
    XorSelf(Zeros(n));
    RunLinear(POLY, Reg(x), Reg(y), Zeros(n), Zeros(n));
  }

  lemma Nibbles(x: bv32)
    requires x <= 0xff
    ensures x >> 4 < 16 && x & 15 < 16 && x == ((x >> 4) << 4) ^ (x & 15)
  {
  }

  lemma NibbleIndex(x: bv32)
    requires x <= 0xff
    ensures (x as int) == 16 * ((x >> 4) as int) + ((x & 15) as int)
  {
  }

  lemma EntrySum(e: bv32, a: bv32, b: bv32, x: bv32, y: bv32, z: bv32)
    requires Reg(e) == Xor(Reg(a), Reg(b)) && Reg(x) == Xor(Reg(y), Reg(z))
    requires Reg(a) == Run(POLY, Reg(y), Zeros(8)) && Reg(b) == Run(POLY, Reg(z), Zeros(8))
    ensures Reg(e) == Run(POLY, Reg(x), Zeros(8))
  {
    SumOfSteps(y, z, x, 8);
  }

  lemma EntryOf(rows: seq<seq<bv32>>, x: bv32, h: bv32, l: bv32)
    requires GoodRows(rows) && h < 16 && l < 16 && Reg(x) == Xor(Reg(h << 4), Reg(l))
    ensures |rows[h as int]| == 16 && Reg(rows[h as int][l as int]) == Run(POLY, Reg(x), Zeros(8))
  {
    assert GoodRow(rows, h) && GoodRow(rows, l);
    EntrySum(rows[h as int][l as int], rows[h as int][0], rows[0][l as int], x, h << 4, l);
  }

  lemma RowsAreFull(rows: seq<seq<bv32>>)
    requires GoodRows(rows)
    ensures RowLengths(rows)
  {
    forall h | 0 <= h < |rows| ensures |rows[h]| == 16 {
      assert GoodRow(rows, h as bv32);
    }
  }

  lemma TableEntry(rows: seq<seq<bv32>>, x: bv32)
    requires GoodRows(rows) && RowLengths(rows) && x <= 0xff
    ensures |Flatten(rows)| == 256 && Reg(Flatten(rows)[x as int]) == Run(POLY, Reg(x), Zeros(8))
  {
    Nibbles(x);
    NibbleIndex(x);
    RegXor((x >> 4) << 4, x & 15);
    EntryOf(rows, x, x >> 4, x & 15);
    FlattenAt(rows, (x >> 4) as int, (x & 15) as int);
  }

  lemma GoodRowsMakeTable(rows: seq<seq<bv32>>)
    requires GoodRows(rows)
    ensures IsTable(Flatten(rows))
  {
    RowsAreFull(rows);
    TableEntry(rows, 0);
    forall x: bv32 | x <= 0xff ensures Reg(Flatten(rows)[x as int]) == Run(POLY, Reg(x), Zeros(8)) {
      TableEntry(rows, x);
    }
  }

  /** CRC32_TABLE agrees with bitwise division in every entry. */
  lemma TableIsRight()
    ensures IsTable(TABLE)
  {
    RowsAreGood();
    GoodRowsMakeTable(ROWS);
  }

  // ---------- The code ----------

  lemma RegIndex(c: bv32, b: bv8, i: bv32)
    requires i == (c ^ (b as bv32)) & 0xff
    ensures Reg(i) == Xor(Reg(c), ByteBits(b) + Zeros(24))[..8] + Zeros(24)
  {
    RegXor(c, b as bv32);
    ByteReg(b);
    RegLowByte(c ^ (b as bv32));
  }

  lemma RegNext(c: bv32, t: bv32, next: bv32)
    requires next == (c >> 8) ^ t
    ensures Reg(next) == Xor(Reg(c)[8..] + Zeros(8), Reg(t))
  {
    RegXor(c >> 8, t);
    RegRightByte(c);
  }

  /** One pass of the inner loop divides by one byte. */
  lemma TableStep(c: bv32, b: bv8, i: bv32, t: bv32, next: bv32)
    requires Reg(i) == Xor(Reg(c), ByteBits(b) + Zeros(24))[..8] + Zeros(24)
    requires Reg(t) == Run(POLY, Reg(i), Zeros(8))
    requires Reg(next) == Xor(Reg(c)[8..] + Zeros(8), Reg(t))
    ensures Reg(next) == Run(POLY, Reg(c), ByteBits(b))
  {
    HighDivision(POLY, Reg(c), ByteBits(b), 24);
  }

  lemma RemainderNext(data: seq<bv8>, k: nat)
    requires k < |data|
    ensures Remainder(data[..k + 1]) == Run(POLY, Remainder(data[..k]), ByteBits(data[k]))
  {
    assert data[..k + 1][..k] == data[..k];
    RunConcat(POLY, ONES, Bits(data[..k]), ByteBits(data[k]));
  }

  /** The code, for a table: the bytes are taken in chunks of four. */
  method CrcByTable(table: seq<bv32>, data: seq<bv8>) returns (crc: bv32)
    requires IsTable(table)
    ensures IsCrc(crc, data)
  {
    var crc32c: bv32 := 0xffff_ffff;
    var start := 0;
    while start < |data|
      invariant start <= |data| && Reg(crc32c) == Remainder(data[..start])
    {
      var end := if start + 4 <= |data| then start + 4 else |data|;
      for k := start to end
        invariant Reg(crc32c) == Remainder(data[..k])
      {
        crc32c := TableByte(table, crc32c, data[k]);
        RemainderNext(data, k);
      }
      start := end;
    }
    assert data[..|data|] == data;
    RegXor(crc32c, 0xffff_ffff);
    crc := crc32c ^ 0xffff_ffff;
  }

  method TableByte(table: seq<bv32>, crc32c: bv32, byte: bv8) returns (next: bv32)
    requires IsTable(table)
    ensures Reg(next) == Run(POLY, Reg(crc32c), ByteBits(byte))
  {
    var i := (crc32c ^ (byte as bv32)) & 0xff;
    next := (crc32c >> 8) ^ table[i as int];
    RegIndex(crc32c, byte, i);
    RegNext(crc32c, table[i as int], next);
    TableStep(crc32c, byte, i, table[i as int], next);
  }

  /** crc32: the table-driven form computes CRC-32C. */
  method ComputeCrc32(data: seq<bv8>) returns (crc: bv32)
    ensures IsCrc(crc, data)
  {
    TableIsRight();
    crc := CrcByTable(TABLE, data);
  }

  // ---------- What the CRC is good for ----------

  /** The complement of the CRC is the remainder of the data, times x^32, with ones on top, and nothing else is. */
  lemma CrcIsRemainder(data: seq<bv8>, q: seq<bool>, crc: bv32)
    requires |q| == 8 * |data|
    ensures Recompose(POLY, q, Xor(Reg(crc), ONES)) == Dividend(POLY, ONES, Bits(data))
      <==> IsCrc(crc, data) && q == Quotient(POLY, ONES, Bits(data))
  {
    RunIsRemainder(POLY, ONES, Bits(data), q, Xor(Reg(crc), ONES));
    XorTwice(Reg(crc), ONES);
    XorTwice(Remainder(data), ONES);
  }

  lemma XorTwice(a: seq<bool>, b: seq<bool>)
    requires |a| == |b|
    ensures Xor(Xor(a, b), b) == a
  {
  }

  lemma PolyIsOdd()
    ensures Odd(POLY)
  {
    var c: bv32 := 0x82f63b78;
    BitSixteen(c, 31);
    BitEight(c >> 16, 15);
    BitFour(c >> 24, 7);
    BitTwo(c >> 28, 3);
    assert (c >> 16) >> 8 == c >> 24 && (c >> 24) >> 4 == c >> 28 && (c >> 28) >> 2 == c >> 30;
    assert Bit(c >> 30, 1) == Bit(c >> 31, 0);
  }

  lemma ByteInjective(a: bv8, b: bv8)
    requires ByteBits(a) == ByteBits(b)
    ensures a == b
  {
    ByteReg(a);
    ByteReg(b);
    RegInjective(a as bv32, b as bv32);
  }

  lemma {:induction false} BitsInjective(a: seq<bv8>, b: seq<bv8>)
    requires |a| == |b| && Bits(a) == Bits(b)
    ensures a == b
  {
    if a != [] {
      var n := |a| - 1;
      assert Bits(a)[..8 * n] == Bits(a[..n]) && Bits(a)[8 * n..] == ByteBits(a[n]);
      assert Bits(b)[..8 * n] == Bits(b[..n]) && Bits(b)[8 * n..] == ByteBits(b[n]);
      BitsInjective(a[..n], b[..n]);
      ByteInjective(a[n], b[n]);
      assert a == a[..n] + [a[n]] && b == b[..n] + [b[n]];
    }
  }

  /** Messages that differ only within 32 consecutive bits, in the order of the CRC, have different CRCs. */
  lemma BurstChangesCrc(a: seq<bv8>, x: bv32, b: seq<bv8>, y: bv32, k: nat)
    requires IsCrc(x, a) && IsCrc(y, b)
    requires a != b && |a| == |b| && DifferWithin(Bits(a), Bits(b), k, 32)
    ensures x != y
  {
    if Bits(a) == Bits(b) {
      BitsInjective(a, b);
    } else {
      PolyIsOdd();
      BurstDetected(POLY, ONES, Bits(a), Bits(b), k);
      XorTwice(Remainder(a), ONES);
      XorTwice(Remainder(b), ONES);
    }
  }

  lemma SetLowest(c: bv32)
    ensures Set(c, 0) == (c & 1 != 0)
  {
  }

  lemma LowestParity(c: bv32)
    ensures OddOnes(Reg(c)) == (OddOnes(Reg(c >> 1)) != (c & 1 != 0))
  {
    var r := Reg(c);
    SetLowest(c);
    RegRight(c);
    assert r == [r[0]] + r[1..];
    OddOnesCons(r[0], r[1..]);
    OddOnesSnoc(r[1..], false);
  }

  /** The parity of a number and of the number without its lowest four bits. */
  lemma DigitParity(c: bv32, c1: bv32, c2: bv32, c3: bv32, c4: bv32)
    requires c1 == c >> 1 && c2 == c1 >> 1 && c3 == c2 >> 1 && c4 == c3 >> 1
    ensures OddOnes(Reg(c)) ==
      ((((OddOnes(Reg(c4)) != (c3 & 1 != 0)) != (c2 & 1 != 0)) != (c1 & 1 != 0)) != (c & 1 != 0))
  {
    hide OddOnes, Reg;
    LowestParity(c);
    LowestParity(c1);
    LowestParity(c2);
    LowestParity(c3);
  }

  lemma PolyIsEven()
    ensures EvenTerms(POLY)
  {
    DigitParity(0x82f63b78, 0x417b1dbc, 0x20bd8ede, 0x105ec76f, 0x82f63b7);
    DigitParity(0x82f63b7, 0x417b1db, 0x20bd8ed, 0x105ec76, 0x82f63b);
    DigitParity(0x82f63b, 0x417b1d, 0x20bd8e, 0x105ec7, 0x82f63);
    DigitParity(0x82f63, 0x417b1, 0x20bd8, 0x105ec, 0x82f6);
    DigitParity(0x82f6, 0x417b, 0x20bd, 0x105e, 0x82f);
    DigitParity(0x82f, 0x417, 0x20b, 0x105, 0x82);
    DigitParity(0x82, 0x41, 0x20, 0x10, 8);
    DigitParity(8, 4, 2, 1, 0);
    RegXor(0, 0);
    OddOnesXor(Reg(0), Reg(0));
  }

  /** The CRC has the parity of the data: the ones at the start and the final complement cancel. */
  lemma CrcParity(data: seq<bv8>, crc: bv32)
    requires IsCrc(crc, data)
    ensures OddOnes(Reg(crc)) == OddOnes(Bits(data))
  {
    PolyIsEven();
    RunParity(POLY, ONES, Bits(data));
    OddOnesXor(Remainder(data), ONES);
  }

  /** Messages that differ in an odd number of bits have different CRCs. */
  lemma OddErrorsChangeCrc(a: seq<bv8>, x: bv32, b: seq<bv8>, y: bv32)
    requires IsCrc(x, a) && IsCrc(y, b) && |a| == |b| && OddOnes(Xor(Bits(a), Bits(b)))
    ensures x != y
  {
    OddOnesXor(Bits(a), Bits(b));
    CrcParity(a, x);
    CrcParity(b, y);
  }

  /** A CRC is determined by its data. */
  lemma CrcUnique(data: seq<bv8>, x: bv32, y: bv32)
    requires IsCrc(x, data) && IsCrc(y, data)
    ensures x == y
  {
    RegInjective(x, y);
  }

  function ByteOf(c: bv32): bv8 {
    (c & 0xff) as bv8
  }

  /** u32::to_le_bytes. */
  function LittleEndian(c: bv32): seq<bv8> {
    var c1 := c >> 8;
    var c2 := c1 >> 8;
    var c3 := c2 >> 8;
    [ByteOf(c), ByteOf(c1), ByteOf(c2), ByteOf(c3)]
  }

  lemma ByteOfBits(c: bv32)
    ensures ByteBits(ByteOf(c)) == Reg(c)[..8]
  {
    assert ByteOf(c) as bv32 == c & 0xff;
    RegLowByte(c);
  }

  lemma {:induction false} BitsConcat(a: seq<bv8>, b: seq<bv8>)
    ensures Bits(a + b) == Bits(a) + Bits(b)
    decreases |b|
  {
    if b == [] {
      assert a + b == a;
    } else {
      var n := |b| - 1;
      assert (a + b)[..|a + b| - 1] == a + b[..n];
      BitsConcat(a, b[..n]);
    }
  }

  lemma BitsOfFour(a: bv8, b: bv8, c: bv8, d: bv8)
    ensures Bits([a, b, c, d]) == ByteBits(a) + ByteBits(b) + ByteBits(c) + ByteBits(d)
  {
    assert [a, b, c, d][..3] == [a, b, c] && [a, b, c][..2] == [a, b] && [a, b][..1] == [a] && [a][..0] == [];
    assert Bits([a]) == ByteBits(a);
    assert Bits([a, b]) == ByteBits(a) + ByteBits(b);
    assert Bits([a, b, c]) == ByteBits(a) + ByteBits(b) + ByteBits(c);
  }

  lemma FourBytes(r: seq<bool>, r1: seq<bool>, r2: seq<bool>, r3: seq<bool>)
    requires |r| == 32 && r1 == r[8..] + Zeros(8) && r2 == r1[8..] + Zeros(8) && r3 == r2[8..] + Zeros(8)
    ensures r == r[..8] + r1[..8] + r2[..8] + r3[..8]
  {
    assert r1[..8] == r[8..16] && r2[..8] == r1[8..16] == r[16..24] && r3[..8] == r2[8..16] == r1[16..24] == r[24..];
  }

  lemma BytesOfReg(b0: bv8, b1: bv8, b2: bv8, b3: bv8, r: seq<bool>, r1: seq<bool>, r2: seq<bool>, r3: seq<bool>)
    requires |r| == 32 && r1 == r[8..] + Zeros(8) && r2 == r1[8..] + Zeros(8) && r3 == r2[8..] + Zeros(8)
    requires ByteBits(b0) == r[..8] && ByteBits(b1) == r1[..8] && ByteBits(b2) == r2[..8] && ByteBits(b3) == r3[..8]
    ensures Bits([b0, b1, b2, b3]) == r
  {
    BitsOfFour(b0, b1, b2, b3);
    FourBytes(r, r1, r2, r3);
  }

  lemma BytesOfShifted(c: bv32, c1: bv32, c2: bv32, c3: bv32)
    requires Reg(c1) == Reg(c)[8..] + Zeros(8) && Reg(c2) == Reg(c1)[8..] + Zeros(8)
    requires Reg(c3) == Reg(c2)[8..] + Zeros(8)
    ensures Bits([ByteOf(c), ByteOf(c1), ByteOf(c2), ByteOf(c3)]) == Reg(c)
  {
    ByteOfBits(c);
    ByteOfBits(c1);
    ByteOfBits(c2);
    ByteOfBits(c3);
    BytesOfReg(ByteOf(c), ByteOf(c1), ByteOf(c2), ByteOf(c3), Reg(c), Reg(c1), Reg(c2), Reg(c3));
  }

  /** The bytes of a number, lowest first, hold its bits, lowest first. */
  lemma LittleEndianBits(c: bv32)
    ensures Bits(LittleEndian(c)) == Reg(c)
  {
    var c1 := c >> 8;
    var c2 := c1 >> 8;
    var c3 := c2 >> 8;
    RegRightByte(c);
    RegRightByte(c1);
    RegRightByte(c2);
    BytesOfShifted(c, c1, c2, c3);
  }

  /** Thirty-two steps from a register of ones. */
  lemma OnesShifted()
    ensures Run(POLY, ONES, Zeros(32)) == Reg(0xb798b438)
  {
    EvaluateEight(0xffff_ffff, 0xad82acae);
    EvaluateEight(0xad82acae, 0x0e9e882d);
    EvaluateEight(0x0e9e882d, 0x9f9b5c85);
    EvaluateEight(0x9f9b5c85, 0xb798b438);
    assert Zeros(16) == Zeros(8) + Zeros(8) && Zeros(24) == Zeros(16) + Zeros(8) && Zeros(32) == Zeros(24) + Zeros(8);
    RunConcat(POLY, ONES, Zeros(8), Zeros(8));
    RunConcat(POLY, ONES, Zeros(16), Zeros(8));
    RunConcat(POLY, ONES, Zeros(24), Zeros(8));
  }

  /** Feeding the complement of a register leaves the same register whatever it was. */
  lemma ComplementLeavesConstant(r: seq<bool>)
    requires |r| == 32
    ensures Run(POLY, r, Xor(r, ONES)) == Run(POLY, Zeros(32), ONES)
  {
    assert r + Zeros(0) == r;
    RunOwnBits(POLY, r, 0);
    XorSelf(r);
    XorSelf(Run(POLY, Zeros(32), ONES));
    RunLinear(POLY, r, Zeros(32), r, ONES);
  }

  lemma ResidueRegister()
    ensures Run(POLY, Zeros(32), ONES) == Reg(0xb798b438)
  {
    OnesShifted();
    ComplementLeavesConstant(ONES);
    XorSelf(ONES);
  }

  /** Data followed by its CRC, lowest byte first, has the CRC 0x48674bc7, whatever the data. */
  lemma AppendedCrc(data: seq<bv8>, crc: bv32)
    requires IsCrc(crc, data)
    ensures IsCrc(0x48674bc7, data + LittleEndian(crc))
  {
    var r := Remainder(data);
    BitsConcat(data, LittleEndian(crc));
    LittleEndianBits(crc);
    RunConcat(POLY, ONES, Bits(data), Reg(crc));
    ComplementLeavesConstant(r);
    ResidueRegister();
    RegXor(0xb798b438, 0xffff_ffff);
    assert (0xb798b438 as bv32) ^ 0xffff_ffff == 0x48674bc7;
  }

  lemma ByteBitsXor(a: bv8, b: bv8)
    ensures ByteBits(a ^ b) == Xor(ByteBits(a), ByteBits(b))
  {
    RegXor(a as bv32, b as bv32);
    assert (a ^ b) as bv32 == (a as bv32) ^ (b as bv32);
  }

  lemma {:induction false} BitsXor(a: seq<bv8>, b: seq<bv8>)
    requires |a| == |b|
    ensures Bits(XorData(a, b)) == Xor(Bits(a), Bits(b))
    decreases a
  {
    if a != [] {
      var n := |a| - 1;
      var c := XorData(a, b);
      assert c[..n] == XorData(a[..n], b[..n]);
      BitsXor(a[..n], b[..n]);
      ByteBitsXor(a[n], b[n]);
      XorConcat(Bits(a[..n]), Bits(b[..n]), ByteBits(a[n]), ByteBits(b[n]));
    }
  }

  lemma XorOfThree(a: seq<bool>, b: seq<bool>, c: seq<bool>, o: seq<bool>)
    requires |a| == |b| == |c| == |o|
    ensures Xor(Xor(Xor(a, o), Xor(b, o)), Xor(c, o)) == Xor(Xor(Xor(a, b), c), o)
  {
  }

  lemma RegXorThree(x: bv32, y: bv32, z: bv32)
    ensures Reg(x ^ y ^ z) == Xor(Xor(Reg(x), Reg(y)), Reg(z))
  {
    RegXor(x, y);
    RegXor(x ^ y, z);
  }

  lemma RemaindersAdd(a: seq<bv8>, b: seq<bv8>, c: seq<bv8>)
    requires |a| == |b| == |c|
    ensures Remainder(XorData(XorData(a, b), c)) == Xor(Xor(Remainder(a), Remainder(b)), Remainder(c))
  {
    BitsXor(a, b);
    BitsXor(XorData(a, b), c);
    RunAffine(POLY, ONES, Bits(a), Bits(b), Bits(c));
  }

  /** CRCs are affine: the CRCs of three messages add up to that of their sum. */
  lemma CrcAffine(a: seq<bv8>, x: bv32, b: seq<bv8>, y: bv32, c: seq<bv8>, z: bv32)
    requires |a| == |b| == |c| && IsCrc(x, a) && IsCrc(y, b) && IsCrc(z, c)
    ensures IsCrc(x ^ y ^ z, XorData(XorData(a, b), c))
  {
    RemaindersAdd(a, b, c);
    RegXorThree(x, y, z);
    XorOfThree(Remainder(a), Remainder(b), Remainder(c), ONES);
  }
}
