/** CRC-8 as in crc8 of src/util.rs: x^8 + x^2 + x + 1, bits taken from the highest one down. */
module Crc8 {
  import opened BitStreams
  import opened PolyDivision

  // ---------- The code ----------

  /** One pass of the inner loop. */
  function Shift(c: bv8): bv8 {
    if c & 0x80 > 0 then (c << 1) ^ 0x07 else c << 1
  }

  function Shifts(c: bv8, n: nat): bv8 {
    if n == 0 then c else Shift(Shifts(c, n - 1))
  }

  function CrcFrom(c: bv8, data: seq<bv8>): bv8
    decreases data
  {
    if data == [] then c else Shifts(CrcFrom(c, data[..|data| - 1]) ^ data[|data| - 1], 8)
  }

  function Crc(data: seq<bv8>): bv8 {
    CrcFrom(0xff, data)
  }

  method ComputeCrc8(data: seq<bv8>) returns (crc8: bv8)
    ensures crc8 == Crc(data)
  {
    crc8 := 0xff;
    for i := 0 to |data|
      invariant crc8 == Crc(data[..i])
    {
      ghost var before := crc8;
      crc8 := crc8 ^ data[i];
      for k := 0 to 8
        invariant crc8 == Shifts(before ^ data[i], k)
      {
        if crc8 & 0x80 > 0 {
          crc8 := crc8 << 1;
          crc8 := crc8 ^ 0x07;
        } else {
          crc8 := crc8 << 1;
        }
      }
      assert data[..i + 1][..i] == data[..i];
    }
    assert data[..|data|] == data;
  }

  // ---------- The register as coefficients ----------

  /** The bits from the highest down: 0x80, 0x40, ... */
  function Mask(i: nat): (m: bv8)
    requires i < 8
  {
    if i == 0 then 0x80 else Mask(i - 1) >> 1
  }

  function Bit(c: bv8, i: nat): bool
    requires i < 8
  {
    c & Mask(i) != 0
  }

  function Reg(c: bv8): (r: seq<bool>)
    ensures |r| == 8
  {
    seq(8, i requires 0 <= i < 8 => Bit(c, i))
  }

  /** The divisor without its leading coefficient. */
  const POLY := Reg(0x07)

  function Bits(data: seq<bv8>): (bits: seq<bool>)
    ensures |bits| == 8 * |data|
  {
    if data == [] then [] else Bits(data[..|data| - 1]) + Reg(data[|data| - 1])
  }

  lemma MaskIsOneBit(i: nat, c: bv8)
    requires i < 8
    ensures Mask(i) != 0 && (c & Mask(i) == 0 || c & Mask(i) == Mask(i))
    ensures Mask(7) >> 1 == 0
  {
    assert Mask(1) == 0x40 && Mask(2) == 0x20 && Mask(3) == 0x10;
    assert Mask(4) == 0x08 && Mask(5) == 0x04;
    assert Mask(6) == 0x02 && Mask(7) == 0x01;
  }

  lemma BitXor(c: bv8, d: bv8, i: nat)
    requires i < 8
    ensures Bit(c ^ d, i) == (Bit(c, i) != Bit(d, i))
  {
    MaskIsOneBit(i, c);
    MaskIsOneBit(i, d);
  }

  lemma RegXor(c: bv8, d: bv8)
    ensures Reg(c ^ d) == Xor(Reg(c), Reg(d))
  {
    forall i | 0 <= i < 8 ensures Bit(c ^ d, i) == (Bit(c, i) != Bit(d, i)) {
      BitXor(c, d, i);
    }
  }

  lemma RegLeft(c: bv8)
    ensures Reg(c << 1) == Reg(c)[1..] + [false]
  {
    var r := Reg(c << 1);
    forall i | 0 <= i < 8 ensures r[i] == if i < 7 then Bit(c, i + 1) else false {
      MaskIsOneBit(i, c);
    }
  }

  /** The loop body is one division step. */
  lemma ShiftIsStep(c: bv8)
    ensures Reg(Shift(c)) == Step(POLY, Reg(c), false)
  {
    RegLeft(c);
    RegXor(c << 1, 0x07);
    assert Reg(c)[0] == (c & 0x80 != 0);
  }

  /** Eight passes of the loop divide by one byte. */
  lemma ByteIsDivision(d: bv8, b: bv8)
    ensures Reg(Shifts(d ^ b, 8)) == Run(POLY, Reg(d), Reg(b))
  {
    var reg := (i: nat) => Reg(Shifts(d ^ b, i));
    forall i: nat ensures reg(i + 1) == Step(POLY, reg(i), false) {
      ShiftIsStep(Shifts(d ^ b, i));
    }
    StepsAreRun(POLY, reg, 8);
    RegXor(d, b);
    assert Reg(b) + Zeros(0) == Reg(b);
    RunAddedBits(POLY, Reg(d), Reg(b));
  }

  /** The code divides the bits of the data. */
  lemma {:induction false} CrcDivides(c: bv8, data: seq<bv8>)
    ensures Reg(CrcFrom(c, data)) == Run(POLY, Reg(c), Bits(data))
    decreases data
  {
    if data != [] {
      var n := |data| - 1;
      var d, b := CrcFrom(c, data[..n]), data[n];
      CrcDivides(c, data[..n]);
      ByteIsDivision(d, b);
      RunConcat(POLY, Reg(c), Bits(data[..n]), Reg(b));
    }
  }

  /** The CRC is the remainder of the data, times x^8, with the initial register on top, and nothing else is. */
  lemma CrcIsRemainder(data: seq<bv8>, q: seq<bool>, rem: bv8)
    requires |q| == 8 * |data|
    ensures Recompose(POLY, q, Reg(rem)) == Dividend(POLY, Reg(0xff), Bits(data))
      <==> rem == Crc(data) && q == Quotient(POLY, Reg(0xff), Bits(data))
  {
    CrcDivides(0xff, data);
    RunIsRemainder(POLY, Reg(0xff), Bits(data), q, Reg(rem));
    if Reg(rem) == Reg(Crc(data)) {
      RegInjective(rem, Crc(data));
    }
  }

  function OneAt(on: bool, mask: bv8): bv8 {
    if on then mask else 0
  }

  /** The byte with these coefficients. */
  function FromReg(r: seq<bool>): bv8
    requires |r| == 8
  {
    OneAt(r[0], 0x80) | OneAt(r[1], 0x40) | OneAt(r[2], 0x20) | OneAt(r[3], 0x10) |
    OneAt(r[4], 0x08) | OneAt(r[5], 0x04) | OneAt(r[6], 0x02) | OneAt(r[7], 0x01)
  }

  lemma OnesOfByte(c: bv8)
    ensures (OneAt(c & 0x80 != 0, 0x80) | OneAt(c & 0x40 != 0, 0x40) | OneAt(c & 0x20 != 0, 0x20) |
             OneAt(c & 0x10 != 0, 0x10) | OneAt(c & 0x08 != 0, 0x08) | OneAt(c & 0x04 != 0, 0x04) |
             OneAt(c & 0x02 != 0, 0x02) | OneAt(c & 0x01 != 0, 0x01)) == c
  {
  }

  lemma FromRegBack(c: bv8)
    ensures FromReg(Reg(c)) == c
  {
    hide OneAt;
    OnesOfByte(c);
    assert Mask(1) == 0x40 && Mask(2) == 0x20 && Mask(3) == 0x10;
    assert Mask(4) == 0x08 && Mask(5) == 0x04;
    assert Mask(6) == 0x02 && Mask(7) == 0x01;
  }

  lemma RegInjective(c: bv8, d: bv8)
    requires Reg(c) == Reg(d)
    ensures c == d
  {
    FromRegBack(c);
    FromRegBack(d);
  }

  // ---------- What the CRC is good for ----------

  lemma PolyIsOdd()
    ensures Odd(POLY)
  {
    assert Mask(1) == 0x40 && Mask(3) == 0x10 && Mask(5) == 0x04;
    assert Mask(7) == 1;
  }

  lemma {:induction false} BitsInjective(a: seq<bv8>, b: seq<bv8>)
    requires |a| == |b| && Bits(a) == Bits(b)
    ensures a == b
  {
    if a != [] {
      var n := |a| - 1;
      assert Bits(a)[..8 * n] == Bits(a[..n]) && Bits(a)[8 * n..] == Reg(a[n]);
      assert Bits(b)[..8 * n] == Bits(b[..n]) && Bits(b)[8 * n..] == Reg(b[n]);
      BitsInjective(a[..n], b[..n]);
      RegInjective(a[n], b[n]);
      assert a == a[..n] + [a[n]] && b == b[..n] + [b[n]];
    }
  }

  /** Messages that differ only within eight consecutive bits have different CRCs. */
  lemma BurstChangesCrc(a: seq<bv8>, b: seq<bv8>, k: nat)
    requires a != b && |a| == |b| && DifferWithin(Bits(a), Bits(b), k, 8)
    ensures Crc(a) != Crc(b)
  {
    if Bits(a) == Bits(b) {
      BitsInjective(a, b);
    } else {
      PolyIsOdd();
      BurstDetected(POLY, Reg(0xff), Bits(a), Bits(b), k);
      CrcDivides(0xff, a);
      CrcDivides(0xff, b);
    }
  }

  lemma OddOnesOfEight(r: seq<bool>)
    requires |r| == 8
    ensures OddOnes(r) == (((r[0] != r[1]) != (r[2] != r[3])) != ((r[4] != r[5]) != (r[6] != r[7])))
  {
    forall k | 0 <= k < 8 ensures OddOnes(r[..k + 1]) == (OddOnes(r[..k]) != r[k]) {
      assert r[..k + 1] == r[..k] + [r[k]];
      OddOnesSnoc(r[..k], r[k]);
    }
    assert r[..8] == r && !OddOnes(r[..0]);
    assert OddOnes(r[..2]) == (r[0] != r[1]) && OddOnes(r[..4]) == (OddOnes(r[..2]) != (r[2] != r[3]));
    assert OddOnes(r[..6]) == (OddOnes(r[..4]) != (r[4] != r[5]));
  }

  lemma PolyIsEven()
    ensures EvenTerms(POLY) && !OddOnes(Reg(0xff))
  {
    assert Mask(1) == 0x40 && Mask(2) == 0x20 && Mask(3) == 0x10;
    assert Mask(4) == 0x08 && Mask(5) == 0x04;
    assert Mask(6) == 0x02 && Mask(7) == 0x01;
    OddOnesOfEight(POLY);
    OddOnesOfEight(Reg(0xff));
  }

  /** The CRC has the parity of the data. */
  lemma CrcParity(data: seq<bv8>)
    ensures OddOnes(Reg(Crc(data))) == OddOnes(Bits(data))
  {
    PolyIsEven();
    CrcDivides(0xff, data);
    RunParity(POLY, Reg(0xff), Bits(data));
  }

  /** Messages that differ in an odd number of bits have different CRCs. */
  lemma OddErrorsChangeCrc(a: seq<bv8>, b: seq<bv8>)
    requires |a| == |b| && OddOnes(Xor(Bits(a), Bits(b)))
    ensures Crc(a) != Crc(b)
  {
    OddOnesXor(Bits(a), Bits(b));
    CrcParity(a);
    CrcParity(b);
  }

  /** Data followed by its CRC has CRC zero. */
  lemma AppendedCrc(data: seq<bv8>)
    ensures Crc(data + [Crc(data)]) == 0
  {
    var c := Crc(data);
    var all := data + [c];
    assert all[..|data|] == data && all[|data|] == c;
    assert c ^ c == 0;
    assert Shifts(0, 1) == 0 && Shifts(0, 2) == 0 && Shifts(0, 3) == 0 && Shifts(0, 4) == 0;
    assert Shifts(0, 5) == 0 && Shifts(0, 6) == 0 && Shifts(0, 7) == 0 && Shifts(0, 8) == 0;
  }

  lemma {:induction false} BitsXor(a: seq<bv8>, b: seq<bv8>)
    requires |a| == |b|
    ensures Bits(XorData(a, b)) == Xor(Bits(a), Bits(b))
    decreases a
  {
    if a != [] {
      var n := |a| - 1;
      var c := XorData(a, b);
      assert c[..n] == XorData(a[..n], b[..n]);
      BitsXor(a[..n], b[..n]);
      RegXor(a[n], b[n]);
      XorConcat(Bits(a[..n]), Bits(b[..n]), Reg(a[n]), Reg(b[n]));
    }
  }

  lemma BitsOfSum(a: seq<bv8>, b: seq<bv8>, c: seq<bv8>)
    requires |a| == |b| == |c|
    ensures Bits(XorData(XorData(a, b), c)) == Xor(Xor(Bits(a), Bits(b)), Bits(c))
  {
    BitsXor(a, b);
    BitsXor(XorData(a, b), c);
  }

  lemma SumOfRegs(x: bv8, y: bv8, z: bv8, s: bv8)
    requires Reg(s) == Xor(Xor(Reg(x), Reg(y)), Reg(z))
    ensures s == x ^ y ^ z
  {
    RegXor(x, y);
    RegXor(x ^ y, z);
    RegInjective(s, x ^ y ^ z);
  }

  /** CRCs are affine: the CRCs of three messages add up to that of their sum. */
  lemma CrcAffine(a: seq<bv8>, b: seq<bv8>, c: seq<bv8>)
    requires |a| == |b| == |c|
    ensures Crc(XorData(XorData(a, b), c)) == Crc(a) ^ Crc(b) ^ Crc(c)
  {
    var s := XorData(XorData(a, b), c);
    BitsOfSum(a, b, c);
    RunAffine(POLY, Reg(0xff), Bits(a), Bits(b), Bits(c));
    CrcDivides(0xff, a);
    CrcDivides(0xff, b);
    CrcDivides(0xff, c);
    CrcDivides(0xff, s);
    SumOfRegs(Crc(a), Crc(b), Crc(c), Crc(s));
  }
}
