/** The bitwise "multiplication" kernels (org/src/main.rs:115-137). They
    combine partial products with XOR and OR, so on single-bit operands they
    compute the carry-less (GF(2) polynomial) product of the two codes, which
    is the integer product except where a carry would occur. */
module Kernels {
  import opened Bits

  /** Carry-less product: the XOR of `b` shifted by every set bit of `a`. */
  function ClMul(a: nat, b: nat): nat
  {
    if a == 0 then 0 else Xor(if a % 2 == 1 then b else 0, 2 * ClMul(a / 2, b))
  }

  /** A `u32` holding 0 or 1. */
  predicate IsBit(x: nat)
  {
    x < 2
  }

  /** `quaternary_multiply_u32`: partial products of two 2-bit codes
      `(a1, a0)` and `(b1, b0)`, or-ed at bit offsets 2, 1 and 0 of a `u32`
      and widened to `u64`. */
  function QuaternaryMultiply(a0: U32, a1: U32, b0: U32, b1: U32): (r: nat)
    ensures r < WORD
    ensures IsBit(a0) && IsBit(a1) && IsBit(b0) && IsBit(b1) ==>
              r == 4 * (a1 * b1) + 2 * ((a0 * b1 + a1 * b0) % 2) + a0 * b0
  {
    var p0 := And(a0, b0);
    var p1 := Xor(And(a0, b1), And(a1, b0));
    var p2 := And(a1, b1);
    QuaternaryFacts(a0, a1, b0, b1, p0, p1, p2);
    Or(Or(Shl32(p2, 2), Shl32(p1, 1)), p0)
  }

  lemma QuaternaryFacts(a0: U32, a1: U32, b0: U32, b1: U32, p0: nat, p1: nat, p2: nat)
    requires p0 == And(a0, b0) && p1 == Xor(And(a0, b1), And(a1, b0)) && p2 == And(a1, b1)
    ensures Or(Or(Shl32(p2, 2), Shl32(p1, 1)), p0) < WORD
    ensures IsBit(a0) && IsBit(a1) && IsBit(b0) && IsBit(b1) ==>
              Or(Or(Shl32(p2, 2), Shl32(p1, 1)), p0) == 4 * (a1 * b1) + 2 * ((a0 * b1 + a1 * b0) % 2) + a0 * b0
  {
    Pow2Values();
    OrBound(Shl32(p2, 2), Shl32(p1, 1), 32);
    OrBound(Or(Shl32(p2, 2), Shl32(p1, 1)), p0, 32);
    if IsBit(a0) && IsBit(a1) && IsBit(b0) && IsBit(b1) {
      BitProducts(a0, a1, b0, b1);
      AssembleQuaternary(p0, p1, p2);
    }
  }

  /** The partial products of two 2-bit codes, as integers. */
  lemma BitProducts(a0: nat, a1: nat, b0: nat, b1: nat)
    requires a0 < 2 && a1 < 2 && b0 < 2 && b1 < 2
    ensures And(a0, b0) == a0 * b0 && And(a1, b1) == a1 * b1
    ensures Xor(And(a0, b1), And(a1, b0)) == (a0 * b1 + a1 * b0) % 2
  {
    AndBits(a0, b0);
    AndBits(a1, b1);
    AndBits(a0, b1);
    AndBits(a1, b0);
    var x, y := And(a0, b1), And(a1, b0);
    XorBits(x, y);
  }

  /** Or-ing three bits at offsets 2, 1 and 0 places them in a 3-bit number. */
  lemma AssembleQuaternary(p0: nat, p1: nat, p2: nat)
    requires p0 < 2 && p1 < 2 && p2 < 2
    ensures Or(Or(Shl32(p2, 2), Shl32(p1, 1)), p0) == 4 * p2 + 2 * p1 + p0
  {
    assert Pow2(2) == 4 && Pow2(1) == 2;
    assert Shl32(p2, 2) == 4 * p2;
    assert Shl32(p1, 1) == 2 * p1;
    var m2 := 4 * p2;
    ModUnique(m2, 4, p2, 0);
    OrDisjoint(m2, 2 * p1, 2);
    var m1 := m2 + 2 * p1;
    ModUnique(m1, 2, 2 * p2 + p1, 0);
    OrDisjoint(m1, p0, 1);
    assert Or(Shl32(p2, 2), Shl32(p1, 1)) == m1;
  }

  lemma AndBits(a: nat, b: nat)
    requires a < 2 && b < 2
    ensures And(a, b) == a * b && And(a, b) < 2
  {
  }

  lemma XorBits(a: nat, b: nat)
    requires a < 2 && b < 2
    ensures Xor(a, b) == (a + b) % 2
  {
  }

  /** OR of a multiple of 2^j and a value below 2^j is their sum. */
  lemma {:induction false} OrDisjoint(x: nat, y: nat, j: nat)
    requires x % Pow2(j) == 0 && y < Pow2(j)
    ensures Or(x, y) == x + y
    decreases j
  {
    if x != 0 && y != 0 {
      var m := Pow2(j - 1);
      ModDouble(x, m);
      OrDisjoint(x / 2, y / 2, j - 1);
    }
  }

  /** XOR of two bits, without arithmetic. */
  function XorBit(t: nat, s: nat): nat
  {
    if t == s then 0 else 1
  }

  lemma XorOfBits(t: nat, s: nat)
    requires t < 2 && s < 2
    ensures Xor(t, s) == XorBit(t, s)
  {
  }

  /** Appending a low bit to both XOR operands appends their XOR. */
  lemma XorPair(m: nat, n: nat, x: nat, y: nat, t: nat, s: nat)
    requires t < 2 && s < 2 && m == 2 * x + t && n == 2 * y + s
    ensures Xor(m, n) == 2 * Xor(x, y) + XorBit(t, s)
  {
    assert m / 2 == x && m % 2 == t;
    assert n / 2 == y && n % 2 == s;
    XorHalves(m, n);
    assert Xor(m, n) == 2 * (Xor(m, n) / 2) + Xor(m, n) % 2;
  }

  /** One step of the carry-less product: the low bit of `a` selects `b`,
      the other bits multiply `b` shifted left by one. */
  lemma ClMulStep(a: nat, b: nat, lo: nat, hi: nat)
    requires lo < 2 && a == 2 * hi + lo
    ensures ClMul(a, b) == Xor(Row(lo, b), 2 * ClMul(hi, b))
  {
    assert a / 2 == hi && a % 2 == lo;
  }

  /** Row `a` of a carry-less product: `b` if the bit `a` is set, else 0. */
  function Row(a: nat, b: nat): nat
  {
    if a == 1 then b else 0
  }

  /** On bits, the quaternary kernel is the carry-less product of the codes
      `2 * a1 + a0` and `2 * b1 + b0`. */
  lemma QuaternaryIsCarryless(a0: U32, a1: U32, b0: U32, b1: U32)
    requires IsBit(a0) && IsBit(a1) && IsBit(b0) && IsBit(b1)
    ensures QuaternaryMultiply(a0, a1, b0, b1) == ClMul(2 * a1 + a0, 2 * b1 + b0)
  {
    ClMulOfTwoBitCodes(a0, a1, b0, b1);
  }

  lemma ClMulOfTwoBitCodes(a0: nat, a1: nat, b0: nat, b1: nat)
    requires a0 < 2 && a1 < 2 && b0 < 2 && b1 < 2
    ensures ClMul(2 * a1 + a0, 2 * b1 + b0) == 4 * (a1 * b1) + 2 * ((a0 * b1 + a1 * b0) % 2) + a0 * b0
  {
    ClMulTwoRows(2 * a1 + a0, a0, a1, 2 * b1 + b0);
    TwoRowsToColumns(a0, a1, b0, b1);
  }

  lemma TwoRowsToColumns(a0: nat, a1: nat, b0: nat, b1: nat)
    requires a0 < 2 && a1 < 2 && b0 < 2 && b1 < 2
    ensures Xor(Row(a0, 2 * b1 + b0), 2 * Row(a1, 2 * b1 + b0))
              == 4 * (a1 * b1) + 2 * ((a0 * b1 + a1 * b0) % 2) + a0 * b0
  {
    var b := 2 * b1 + b0;
    RowBits2(a0, b0, b1);
    RowBits2(a1, b0, b1);
    QuaternaryRows(Row(a0, b), Row(a1, b), a0 * b0, a0 * b1, a1 * b0, a1 * b1);
  }

  /** The carry-less product by a 2-bit code is the XOR of its two rows. */
  lemma ClMulTwoRows(a: nat, a0: nat, a1: nat, b: nat)
    requires a0 < 2 && a1 < 2 && a == 2 * a1 + a0
    ensures ClMul(a, b) == Xor(Row(a0, b), 2 * Row(a1, b))
  {
    ClMulStep(a, b, a0, a1);
    ClMulStep(a1, b, a1, 0);
  }

  lemma RowBits2(a: nat, b0: nat, b1: nat)
    requires a < 2 && b0 < 2 && b1 < 2
    ensures Row(a, 2 * b1 + b0) == 2 * (a * b1) + a * b0
    ensures 0 <= a * b0 < 2 && 0 <= a * b1 < 2
  {
    BitProduct(a, b0);
    BitProduct(a, b1);
  }

  /** XOR-ing two shifted rows of bits sums the columns modulo 2. */
  lemma QuaternaryRows(u0: nat, u1: nat, c00: nat, c01: nat, c10: nat, c11: nat)
    requires c00 < 2 && c01 < 2 && c10 < 2 && c11 < 2
    requires u0 == 2 * c01 + c00 && u1 == 2 * c11 + c10
    ensures Xor(u0, 2 * u1) == 4 * c11 + 2 * ((c01 + c10) % 2) + c00
  {
    Xor3(u0, 2 * u1, c00, c01, 0, 0, c10, c11);
  }

  lemma BitProduct(x: nat, y: nat)
    requires x < 2 && y < 2
    ensures 0 <= x * y < 2 && (x * y == 1 <==> x == 1 && y == 1)
  {
    if x == 0 {
    } else {
    }
  }

  /** Swapping the two codes does not change the quaternary product. */
  lemma QuaternarySymmetric(a0: U32, a1: U32, b0: U32, b1: U32)
    ensures QuaternaryMultiply(a0, a1, b0, b1) == QuaternaryMultiply(b0, b1, a0, a1)
  {
    AndComm(a0, b0);
    AndComm(a1, b1);
    AndComm(a0, b1);
    AndComm(a1, b0);
    XorComm(And(a0, b1), And(a1, b0));
  }

  /** On bits the quaternary kernel agrees with the integer product of the
      codes exactly when no carry arises, i.e. unless both codes are 3; there
      it gives 5 where the product is 9. */
  lemma QuaternaryVersusProduct(a0: U32, a1: U32, b0: U32, b1: U32)
    requires IsBit(a0) && IsBit(a1) && IsBit(b0) && IsBit(b1)
    ensures (QuaternaryMultiply(a0, a1, b0, b1) == (2 * a1 + a0) * (2 * b1 + b0)) <==>
            !(a0 == 1 && a1 == 1 && b0 == 1 && b1 == 1)
    ensures a0 == 1 && a1 == 1 && b0 == 1 && b1 == 1 ==> QuaternaryMultiply(a0, a1, b0, b1) == 5
  {
    var q := QuaternaryMultiply(a0, a1, b0, b1);
    CarryOnlyWhenAllOnes(a0, a1, b0, b1, q);
  }

  lemma CarryOnlyWhenAllOnes(a0: nat, a1: nat, b0: nat, b1: nat, q: nat)
    requires a0 < 2 && a1 < 2 && b0 < 2 && b1 < 2
    requires q == 4 * (a1 * b1) + 2 * ((a0 * b1 + a1 * b0) % 2) + a0 * b0
    ensures q == (2 * a1 + a0) * (2 * b1 + b0) <==> !(a0 == 1 && a1 == 1 && b0 == 1 && b1 == 1)
    ensures a0 == 1 && a1 == 1 && b0 == 1 && b1 == 1 ==> q == 5
  {
    BitProduct(a0, b1);
    BitProduct(a1, b0);
    ProductExpand(a0, a1, b0, b1);
  }

  lemma ProductExpand(a0: nat, a1: nat, b0: nat, b1: nat)
    ensures (2 * a1 + a0) * (2 * b1 + b0) == 4 * (a1 * b1) + 2 * (a0 * b1 + a1 * b0) + a0 * b0
  {
  }

  /** `senary_multiply_u8`: partial products of two 3-bit codes
      `(a2, a1, a0)` and `(b2, b1, b0)`, or-ed at bit offsets 4 down to 0 of
      a `u8` and widened to `u16`. */
  function SenaryMultiply(a0: U8, a1: U8, a2: U8, b0: U8, b1: U8, b2: U8): (r: nat)
    ensures r < 0x100
    ensures IsBit(a0) && IsBit(a1) && IsBit(a2) && IsBit(b0) && IsBit(b1) && IsBit(b2) ==>
              r == 16 * (a2 * b2) + 8 * ((a1 * b2 + a2 * b1) % 2) + 4 * ((a0 * b2 + a1 * b1 + a2 * b0) % 2)
                   + 2 * ((a0 * b1 + a1 * b0) % 2) + a0 * b0
  {
    var p0 := And(a0, b0);
    var p1 := Xor(And(a0, b1), And(a1, b0));
    var p2 := Xor(Xor(And(a0, b2), And(a1, b1)), And(a2, b0));
    var p3 := Xor(And(a1, b2), And(a2, b1));
    var p4 := And(a2, b2);
    SenaryFacts(a0, a1, a2, b0, b1, b2);
    Or(Or(Or(Or(Shl8(p4, 4), Shl8(p3, 3)), Shl8(p2, 2)), Shl8(p1, 1)), p0)
  }

  /** The five partial products of the senary kernel. */
  function SenaryPartials(a0: nat, a1: nat, a2: nat, b0: nat, b1: nat, b2: nat): seq<nat>
  {
    [And(a0, b0),
     Xor(And(a0, b1), And(a1, b0)),
     Xor(Xor(And(a0, b2), And(a1, b1)), And(a2, b0)),
     Xor(And(a1, b2), And(a2, b1)),
     And(a2, b2)]
  }

  lemma SenaryFacts(a0: U8, a1: U8, a2: U8, b0: U8, b1: U8, b2: U8)
    ensures var p := SenaryPartials(a0, a1, a2, b0, b1, b2);
            Or(Or(Or(Or(Shl8(p[4], 4), Shl8(p[3], 3)), Shl8(p[2], 2)), Shl8(p[1], 1)), p[0]) < 0x100
    ensures var p := SenaryPartials(a0, a1, a2, b0, b1, b2);
            IsBit(a0) && IsBit(a1) && IsBit(a2) && IsBit(b0) && IsBit(b1) && IsBit(b2) ==>
              Or(Or(Or(Or(Shl8(p[4], 4), Shl8(p[3], 3)), Shl8(p[2], 2)), Shl8(p[1], 1)), p[0])
                == 16 * (a2 * b2) + 8 * ((a1 * b2 + a2 * b1) % 2) + 4 * ((a0 * b2 + a1 * b1 + a2 * b0) % 2)
                   + 2 * ((a0 * b1 + a1 * b0) % 2) + a0 * b0
  {
    var p := SenaryPartials(a0, a1, a2, b0, b1, b2);
    assert Pow2(8) == 0x100;
    var x3 := Or(Shl8(p[4], 4), Shl8(p[3], 3));
    var x2 := Or(x3, Shl8(p[2], 2));
    var x1 := Or(x2, Shl8(p[1], 1));
    OrBound(Shl8(p[4], 4), Shl8(p[3], 3), 8);
    OrBound(x3, Shl8(p[2], 2), 8);
    OrBound(x2, Shl8(p[1], 1), 8);
    OrBound(x1, p[0], 8);
    if IsBit(a0) && IsBit(a1) && IsBit(a2) && IsBit(b0) && IsBit(b1) && IsBit(b2) {
      SenaryBitProducts(a0, a1, a2, b0, b1, b2);
      AssembleSenary(p[0], p[1], p[2], p[3], p[4]);
    }
  }

  lemma SenaryBitProducts(a0: nat, a1: nat, a2: nat, b0: nat, b1: nat, b2: nat)
    requires a0 < 2 && a1 < 2 && a2 < 2 && b0 < 2 && b1 < 2 && b2 < 2
    ensures var p := SenaryPartials(a0, a1, a2, b0, b1, b2);
            p[0] == a0 * b0 && p[1] == (a0 * b1 + a1 * b0) % 2 && p[2] == (a0 * b2 + a1 * b1 + a2 * b0) % 2 &&
            p[3] == (a1 * b2 + a2 * b1) % 2 && p[4] == a2 * b2
  {
    BitProducts(a0, a1, b0, b1);
    BitProducts(a1, a2, b1, b2);
    MiddlePartial(And(a0, b2), And(a1, b1), And(a2, b0), a0, a1, a2, b0, b1, b2);
  }

  lemma MiddlePartial(x: nat, y: nat, z: nat, a0: nat, a1: nat, a2: nat, b0: nat, b1: nat, b2: nat)
    requires a0 < 2 && a1 < 2 && a2 < 2 && b0 < 2 && b1 < 2 && b2 < 2
    requires x == And(a0, b2) && y == And(a1, b1) && z == And(a2, b0)
    ensures Xor(Xor(x, y), z) == (a0 * b2 + a1 * b1 + a2 * b0) % 2
  {
    MiddleXor(x, y, z, a0, a1, a2, b0, b1, b2);
    MiddleProducts(x, y, z, a0, a1, a2, b0, b1, b2);
  }

  lemma MiddleXor(x: nat, y: nat, z: nat, a0: nat, a1: nat, a2: nat, b0: nat, b1: nat, b2: nat)
    requires a0 < 2 && a1 < 2 && a2 < 2 && b0 < 2 && b1 < 2 && b2 < 2
    requires x == And(a0, b2) && y == And(a1, b1) && z == And(a2, b0)
    ensures Xor(Xor(x, y), z) == (x + y + z) % 2
  {
    AndBits(a0, b2);
    AndBits(a1, b1);
    AndBits(a2, b0);
    XorOfThreeBits(x, y, z);
  }

  lemma MiddleProducts(x: nat, y: nat, z: nat, a0: nat, a1: nat, a2: nat, b0: nat, b1: nat, b2: nat)
    requires a0 < 2 && a1 < 2 && a2 < 2 && b0 < 2 && b1 < 2 && b2 < 2
    requires x == And(a0, b2) && y == And(a1, b1) && z == And(a2, b0)
    ensures (x + y + z) % 2 == (a0 * b2 + a1 * b1 + a2 * b0) % 2
  {
    AndBits(a0, b2);
    AndBits(a1, b1);
    AndBits(a2, b0);
  }

  lemma XorOfThreeBits(x: nat, y: nat, z: nat)
    requires x < 2 && y < 2 && z < 2
    ensures Xor(Xor(x, y), z) == (x + y + z) % 2
  {
    XorBits(x, y);
    XorBits(Xor(x, y), z);
    ParityOfThree(x, y, z);
  }

  lemma ParityOfThree(x: nat, y: nat, z: nat)
    ensures ((x + y) % 2 + z) % 2 == (x + y + z) % 2
  {
  }

  /** Or-ing five bits at offsets 4 down to 0 places them in a 5-bit number. */
  lemma AssembleSenary(p0: nat, p1: nat, p2: nat, p3: nat, p4: nat)
    requires p0 < 2 && p1 < 2 && p2 < 2 && p3 < 2 && p4 < 2
    ensures Or(Or(Or(Or(Shl8(p4, 4), Shl8(p3, 3)), Shl8(p2, 2)), Shl8(p1, 1)), p0)
              == 16 * p4 + 8 * p3 + 4 * p2 + 2 * p1 + p0
  {
    assert Pow2(1) == 2 && Pow2(2) == 4 && Pow2(3) == 8 && Pow2(4) == 16;
    assert Shl8(p4, 4) == 16 * p4 && Shl8(p3, 3) == 8 * p3;
    assert Shl8(p2, 2) == 4 * p2 && Shl8(p1, 1) == 2 * p1;
    var m4 := 16 * p4;
    ModUnique(m4, 16, p4, 0);
    OrDisjoint(m4, 8 * p3, 4);
    var m3 := m4 + 8 * p3;
    ModUnique(m3, 8, 2 * p4 + p3, 0);
    OrDisjoint(m3, 4 * p2, 3);
    var m2 := m3 + 4 * p2;
    ModUnique(m2, 4, 4 * p4 + 2 * p3 + p2, 0);
    OrDisjoint(m2, 2 * p1, 2);
    var m1 := m2 + 2 * p1;
    ModUnique(m1, 2, 8 * p4 + 4 * p3 + 2 * p2 + p1, 0);
    OrDisjoint(m1, p0, 1);
    assert Or(Shl8(p4, 4), Shl8(p3, 3)) == m3;
    assert Or(m3, Shl8(p2, 2)) == m2;
    assert Or(m2, Shl8(p1, 1)) == m1;
  }

  /** On bits, the senary kernel is the carry-less product of the codes
      `4 * a2 + 2 * a1 + a0` and `4 * b2 + 2 * b1 + b0`. */
  lemma SenaryIsCarryless(a0: U8, a1: U8, a2: U8, b0: U8, b1: U8, b2: U8)
    requires IsBit(a0) && IsBit(a1) && IsBit(a2) && IsBit(b0) && IsBit(b1) && IsBit(b2)
    ensures SenaryMultiply(a0, a1, a2, b0, b1, b2) == ClMul(4 * a2 + 2 * a1 + a0, 4 * b2 + 2 * b1 + b0)
  {
    ClMulOfThreeBitCodes(a0, a1, a2, b0, b1, b2);
  }

  lemma ClMulOfThreeBitCodes(a0: nat, a1: nat, a2: nat, b0: nat, b1: nat, b2: nat)
    requires a0 < 2 && a1 < 2 && a2 < 2 && b0 < 2 && b1 < 2 && b2 < 2
    ensures ClMul(4 * a2 + 2 * a1 + a0, 4 * b2 + 2 * b1 + b0)
              == 16 * (a2 * b2) + 8 * ((a1 * b2 + a2 * b1) % 2) + 4 * ((a0 * b2 + a1 * b1 + a2 * b0) % 2)
                 + 2 * ((a0 * b1 + a1 * b0) % 2) + a0 * b0
  {
    ClMulThreeRows(4 * a2 + 2 * a1 + a0, 2 * a2 + a1, a0, a1, a2, 4 * b2 + 2 * b1 + b0);
    RowsToColumns(a0, a1, a2, b0, b1, b2);
  }

  /** The carry-less product by a 3-bit code is the XOR of its three shifted
      rows. */
  lemma ClMulThreeRows(a: nat, hi: nat, a0: nat, a1: nat, a2: nat, b: nat)
    requires a0 < 2 && a1 < 2 && a2 < 2 && hi == 2 * a2 + a1 && a == 2 * hi + a0
    ensures ClMul(a, b) == Xor(Row(a0, b), 2 * Xor(Row(a1, b), 2 * Row(a2, b)))
  {
    ClMulStep(a, b, a0, hi);
    ClMulTwoRows(hi, a1, a2, b);
  }

  lemma RowsToColumns(a0: nat, a1: nat, a2: nat, b0: nat, b1: nat, b2: nat)
    requires a0 < 2 && a1 < 2 && a2 < 2 && b0 < 2 && b1 < 2 && b2 < 2
    ensures var b := 4 * b2 + 2 * b1 + b0;
            Xor(Row(a0, b), 2 * Xor(Row(a1, b), 2 * Row(a2, b)))
              == 16 * (a2 * b2) + 8 * ((a1 * b2 + a2 * b1) % 2) + 4 * ((a0 * b2 + a1 * b1 + a2 * b0) % 2)
                 + 2 * ((a0 * b1 + a1 * b0) % 2) + a0 * b0
  {
    var b := 4 * b2 + 2 * b1 + b0;
    RowBits(a0, b0, b1, b2);
    RowBits(a1, b0, b1, b2);
    RowBits(a2, b0, b1, b2);
    SenaryRows(Row(a0, b), Row(a1, b), Row(a2, b),
               a0 * b0, a0 * b1, a0 * b2, a1 * b0, a1 * b1, a1 * b2, a2 * b0, a2 * b1, a2 * b2);
  }

  lemma RowBits(a: nat, b0: nat, b1: nat, b2: nat)
    requires a < 2 && b0 < 2 && b1 < 2 && b2 < 2
    ensures Row(a, 4 * b2 + 2 * b1 + b0) == 4 * (a * b2) + 2 * (a * b1) + a * b0
    ensures 0 <= a * b0 < 2 && 0 <= a * b1 < 2 && 0 <= a * b2 < 2
  {
    BitProduct(a, b0);
    BitProduct(a, b1);
    BitProduct(a, b2);
  }

  /** XOR-ing three shifted rows of bits sums the columns modulo 2. */
  lemma SenaryRows(u0: nat, u1: nat, u2: nat, c00: int, c01: int, c02: int, c10: int, c11: int, c12: int,
                   c20: int, c21: int, c22: int)
    requires 0 <= c00 < 2 && 0 <= c01 < 2 && 0 <= c02 < 2 && 0 <= c10 < 2 && 0 <= c11 < 2 && 0 <= c12 < 2
    requires 0 <= c20 < 2 && 0 <= c21 < 2 && 0 <= c22 < 2
    requires u0 == 4 * c02 + 2 * c01 + c00 && u1 == 4 * c12 + 2 * c11 + c10 && u2 == 4 * c22 + 2 * c21 + c20
    ensures Xor(u0, 2 * Xor(u1, 2 * u2))
              == 16 * c22 + 8 * ((c12 + c21) % 2) + 4 * ((c02 + c11 + c20) % 2) + 2 * ((c01 + c10) % 2) + c00
  {
    var e3, f := XorBit(c12, c21), XorBit(c11, c20);
    Xor4(u1, 2 * u2, c10, c11, c12, 0, 0, c20, c21, c22);
    Xor5(u0, 2 * Xor(u1, 2 * u2), c00, c01, c02, 0, 0, 0, c10, f, e3, c22);
    ColumnParities(c01, c10, c02, c11, c20, c12, c21);
  }

  lemma ColumnParities(c01: nat, c10: nat, c02: nat, c11: nat, c20: nat, c12: nat, c21: nat)
    requires c01 < 2 && c10 < 2 && c02 < 2 && c11 < 2 && c20 < 2 && c12 < 2 && c21 < 2
    ensures XorBit(c01, c10) == (c01 + c10) % 2 && XorBit(c12, c21) == (c12 + c21) % 2
    ensures XorBit(c02, XorBit(c11, c20)) == (c02 + c11 + c20) % 2
  {
  }

  /** XOR of numbers given by their low bits, digit by digit. */
  lemma Xor2(m: nat, n: nat, x0: nat, x1: nat, y0: nat, y1: nat)
    requires x0 < 2 && x1 < 2 && y0 < 2 && y1 < 2
    requires m == 2 * x1 + x0 && n == 2 * y1 + y0
    ensures Xor(m, n) == 2 * XorBit(x1, y1) + XorBit(x0, y0)
  {
    XorPair(m, n, x1, y1, x0, y0);
    XorOfBits(x1, y1);
  }

  lemma Xor3(m: nat, n: nat, x0: nat, x1: nat, x2: nat, y0: nat, y1: nat, y2: nat)
    requires x0 < 2 && x1 < 2 && x2 < 2 && y0 < 2 && y1 < 2 && y2 < 2
    requires m == 4 * x2 + 2 * x1 + x0 && n == 4 * y2 + 2 * y1 + y0
    ensures Xor(m, n) == 4 * XorBit(x2, y2) + 2 * XorBit(x1, y1) + XorBit(x0, y0)
  {
    XorPair(m, n, 2 * x2 + x1, 2 * y2 + y1, x0, y0);
    Xor2(2 * x2 + x1, 2 * y2 + y1, x1, x2, y1, y2);
  }

  lemma Xor4(m: nat, n: nat, x0: nat, x1: nat, x2: nat, x3: nat, y0: nat, y1: nat, y2: nat, y3: nat)
    requires x0 < 2 && x1 < 2 && x2 < 2 && x3 < 2 && y0 < 2 && y1 < 2 && y2 < 2 && y3 < 2
    requires m == 8 * x3 + 4 * x2 + 2 * x1 + x0 && n == 8 * y3 + 4 * y2 + 2 * y1 + y0
    ensures Xor(m, n) == 8 * XorBit(x3, y3) + 4 * XorBit(x2, y2) + 2 * XorBit(x1, y1) + XorBit(x0, y0)
  {
    XorPair(m, n, 4 * x3 + 2 * x2 + x1, 4 * y3 + 2 * y2 + y1, x0, y0);
    Xor3(4 * x3 + 2 * x2 + x1, 4 * y3 + 2 * y2 + y1, x1, x2, x3, y1, y2, y3);
  }

  lemma Xor5(m: nat, n: nat, x0: nat, x1: nat, x2: nat, x3: nat, x4: nat,
             y0: nat, y1: nat, y2: nat, y3: nat, y4: nat)
    requires x0 < 2 && x1 < 2 && x2 < 2 && x3 < 2 && x4 < 2 && y0 < 2 && y1 < 2 && y2 < 2 && y3 < 2 && y4 < 2
    requires m == 16 * x4 + 8 * x3 + 4 * x2 + 2 * x1 + x0 && n == 16 * y4 + 8 * y3 + 4 * y2 + 2 * y1 + y0
    ensures Xor(m, n) == 16 * XorBit(x4, y4) + 8 * XorBit(x3, y3) + 4 * XorBit(x2, y2)
                         + 2 * XorBit(x1, y1) + XorBit(x0, y0)
  {
    XorPair(m, n, 8 * x4 + 4 * x3 + 2 * x2 + x1, 8 * y4 + 4 * y3 + 2 * y2 + y1, x0, y0);
    Xor4(8 * x4 + 4 * x3 + 2 * x2 + x1, 8 * y4 + 4 * y3 + 2 * y2 + y1, x1, x2, x3, x4, y1, y2, y3, y4);
  }

  /** Xor of three operands does not depend on their order. */
  lemma XorReverse3(x: nat, y: nat, z: nat)
    ensures Xor(Xor(x, y), z) == Xor(Xor(z, y), x)
  {
    XorAssoc(x, y, z);
    XorComm(x, Xor(y, z));
    XorComm(y, z);
  }

  /** Swapping the two codes does not change the senary product. */
  lemma SenarySymmetric(a0: U8, a1: U8, a2: U8, b0: U8, b1: U8, b2: U8)
    ensures SenaryMultiply(a0, a1, a2, b0, b1, b2) == SenaryMultiply(b0, b1, b2, a0, a1, a2)
  {
    AndComm(a0, b0); AndComm(a0, b1); AndComm(a0, b2);
    AndComm(a1, b0); AndComm(a1, b1); AndComm(a1, b2);
    AndComm(a2, b0); AndComm(a2, b1); AndComm(a2, b2);
    XorComm(And(a0, b1), And(a1, b0));
    XorComm(And(a1, b2), And(a2, b1));
    XorReverse3(And(a0, b2), And(a1, b1), And(a2, b0));
  }

  /** On bits the senary kernel never exceeds the integer product of the
      codes, and equals it exactly when no column of partial products sums
      to 2 or more, i.e. when the integer product has no carry. */
  lemma SenaryVersusProduct(a0: U8, a1: U8, a2: U8, b0: U8, b1: U8, b2: U8)
    requires IsBit(a0) && IsBit(a1) && IsBit(a2) && IsBit(b0) && IsBit(b1) && IsBit(b2)
    ensures SenaryMultiply(a0, a1, a2, b0, b1, b2) <= (4 * a2 + 2 * a1 + a0) * (4 * b2 + 2 * b1 + b0)
    ensures SenaryMultiply(a0, a1, a2, b0, b1, b2) == (4 * a2 + 2 * a1 + a0) * (4 * b2 + 2 * b1 + b0) <==>
            a0 * b1 + a1 * b0 < 2 && a0 * b2 + a1 * b1 + a2 * b0 < 2 && a1 * b2 + a2 * b1 < 2
    ensures SenaryMultiply(a0, a1, a2, b0, b1, b2) < 32
  {
    var q := SenaryMultiply(a0, a1, a2, b0, b1, b2);
    SenaryVersusArith(a0, a1, a2, b0, b1, b2, q);
  }

  lemma SenaryVersusArith(a0: nat, a1: nat, a2: nat, b0: nat, b1: nat, b2: nat, q: nat)
    requires a0 < 2 && a1 < 2 && a2 < 2 && b0 < 2 && b1 < 2 && b2 < 2
    requires q == 16 * (a2 * b2) + 8 * ((a1 * b2 + a2 * b1) % 2) + 4 * ((a0 * b2 + a1 * b1 + a2 * b0) % 2)
                 + 2 * ((a0 * b1 + a1 * b0) % 2) + a0 * b0
    ensures q <= (4 * a2 + 2 * a1 + a0) * (4 * b2 + 2 * b1 + b0)
    ensures q == (4 * a2 + 2 * a1 + a0) * (4 * b2 + 2 * b1 + b0) <==>
            a0 * b1 + a1 * b0 < 2 && a0 * b2 + a1 * b1 + a2 * b0 < 2 && a1 * b2 + a2 * b1 < 2
    ensures q < 32
  {
    var s0, s4 := a0 * b0, a2 * b2;
    var s1, s2, s3 := a0 * b1 + a1 * b0, a0 * b2 + a1 * b1 + a2 * b0, a1 * b2 + a2 * b1;
    BitProduct(a0, b0);
    BitProduct(a2, b2);
    ProductExpand3(a0, a1, a2, b0, b1, b2);
    SenaryCarries(s0, s1, s2, s3, s4, q);
  }

  lemma SenaryCarries(s0: nat, s1: nat, s2: nat, s3: nat, s4: nat, q: nat)
    requires q == 16 * s4 + 8 * (s3 % 2) + 4 * (s2 % 2) + 2 * (s1 % 2) + s0
    ensures q <= 16 * s4 + 8 * s3 + 4 * s2 + 2 * s1 + s0
    ensures q == 16 * s4 + 8 * s3 + 4 * s2 + 2 * s1 + s0 <==> s1 < 2 && s2 < 2 && s3 < 2
    ensures s4 < 2 && s0 < 2 ==> q < 32
  {
  }

  lemma ProductExpand3(a0: nat, a1: nat, a2: nat, b0: nat, b1: nat, b2: nat)
    ensures (4 * a2 + 2 * a1 + a0) * (4 * b2 + 2 * b1 + b0)
              == 16 * (a2 * b2) + 8 * (a1 * b2 + a2 * b1) + 4 * (a0 * b2 + a1 * b1 + a2 * b0)
                 + 2 * (a0 * b1 + a1 * b0) + a0 * b0
  {
  }

  // ---------------------------------------------------------------------
  // Corrected kernels: the column sums added, so that carries propagate

  /** The quaternary kernel with the middle column added instead of xor-ed:
      on bits it is the integer product of the two 2-bit codes. */
  function QuaternaryMultiplyExact(a0: U32, a1: U32, b0: U32, b1: U32): (r: nat)
    ensures IsBit(a0) && IsBit(a1) && IsBit(b0) && IsBit(b1) ==>
              r == (2 * a1 + a0) * (2 * b1 + b0)
  {
    var p0 := And(a0, b0);
    var p1 := And(a0, b1) + And(a1, b0);
    var p2 := And(a1, b1);
    if IsBit(a0) && IsBit(a1) && IsBit(b0) && IsBit(b1) then
      AndBits(a0, b0); AndBits(a0, b1); AndBits(a1, b0); AndBits(a1, b1);
      ProductExpand(a0, a1, b0, b1);
      4 * p2 + 2 * p1 + p0
    else
      4 * p2 + 2 * p1 + p0
  }

  /** The senary kernel with every column of partial products added: on bits
      it is the integer product of the two 3-bit codes. */
  function SenaryMultiplyExact(a0: U8, a1: U8, a2: U8, b0: U8, b1: U8, b2: U8): (r: nat)
    ensures IsBit(a0) && IsBit(a1) && IsBit(a2) && IsBit(b0) && IsBit(b1) && IsBit(b2) ==>
              r == (4 * a2 + 2 * a1 + a0) * (4 * b2 + 2 * b1 + b0)
  {
    var p0 := And(a0, b0);
    var p1 := And(a0, b1) + And(a1, b0);
    var p2 := And(a0, b2) + And(a1, b1) + And(a2, b0);
    var p3 := And(a1, b2) + And(a2, b1);
    var p4 := And(a2, b2);
    if IsBit(a0) && IsBit(a1) && IsBit(a2) && IsBit(b0) && IsBit(b1) && IsBit(b2) then
      ExactColumns(a0, a1, a2, b0, b1, b2);
      ProductExpand3(a0, a1, a2, b0, b1, b2);
      16 * p4 + 8 * p3 + 4 * p2 + 2 * p1 + p0
    else
      16 * p4 + 8 * p3 + 4 * p2 + 2 * p1 + p0
  }

  lemma ExactColumns(a0: nat, a1: nat, a2: nat, b0: nat, b1: nat, b2: nat)
    requires a0 < 2 && a1 < 2 && a2 < 2 && b0 < 2 && b1 < 2 && b2 < 2
    ensures And(a0, b0) == a0 * b0 && And(a0, b1) == a0 * b1 && And(a0, b2) == a0 * b2
    ensures And(a1, b0) == a1 * b0 && And(a1, b1) == a1 * b1 && And(a1, b2) == a1 * b2
    ensures And(a2, b0) == a2 * b0 && And(a2, b1) == a2 * b1 && And(a2, b2) == a2 * b2
  {
    AndBits(a0, b0); AndBits(a0, b1); AndBits(a0, b2);
    AndBits(a1, b0); AndBits(a1, b1); AndBits(a1, b2);
    AndBits(a2, b0); AndBits(a2, b1); AndBits(a2, b2);
  }

  /** The corrected kernels agree with the ones as written whenever no
      column of partial products carries. */
  lemma ExactAgreesWithoutCarry(a0: U8, a1: U8, a2: U8, b0: U8, b1: U8, b2: U8)
    requires IsBit(a0) && IsBit(a1) && IsBit(a2) && IsBit(b0) && IsBit(b1) && IsBit(b2)
    ensures SenaryMultiplyExact(a0, a1, a2, b0, b1, b2) == SenaryMultiply(a0, a1, a2, b0, b1, b2) <==>
            a0 * b1 + a1 * b0 < 2 && a0 * b2 + a1 * b1 + a2 * b0 < 2 && a1 * b2 + a2 * b1 < 2
  {
    SenaryVersusProduct(a0, a1, a2, b0, b1, b2);
  }

  /** The senary kernel as written on the codes 7 and 7: 21, not 49. */
  lemma SenaryCarryLost()
    ensures SenaryMultiply(1, 1, 1, 1, 1, 1) == 21
    ensures SenaryMultiplyExact(1, 1, 1, 1, 1, 1) == 49
  {
  }
}
