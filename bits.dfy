/** Unsigned machine words modelled as natural numbers, with the bitwise
    operators the engine uses (`&`, `|`, `^`, shifts) defined bit by bit,
    and the reference population count. */
module Bits {

  /** 2 to the power `k`. */
  function Pow2(k: nat): (r: nat)
    ensures r >= 1
  {
    if k == 0 then 1 else 2 * Pow2(k - 1)
  }

  const WORD: nat := 0x1_0000_0000

  /** Rust's `u32`, `u16` and `u8`. */
  type U32 = x: nat | x < 0x1_0000_0000
  type U16 = x: nat | x < 0x1_0000
  type U8 = x: nat | x < 0x100

  /** Number of set bits of `n`: the reference popcount. */
  function Popcount(n: nat): nat
  {
    if n == 0 then 0 else n % 2 + Popcount(n / 2)
  }

  /** Bitwise AND. */
  function And(a: nat, b: nat): (r: nat)
    ensures r <= a && r <= b
  {
    if a == 0 || b == 0 then 0
    else 2 * And(a / 2, b / 2) + (if a % 2 == 1 && b % 2 == 1 then 1 else 0)
  }

  /** Bitwise OR. */
  function Or(a: nat, b: nat): (r: nat)
    ensures a <= r + b && b <= r + a
    decreases a + b
  {
    if a == 0 then b
    else if b == 0 then a
    else 2 * Or(a / 2, b / 2) + (if a % 2 == 1 || b % 2 == 1 then 1 else 0)
  }

  /** Bitwise XOR. */
  function Xor(a: nat, b: nat): nat
    decreases a + b
  {
    if a == 0 then b
    else if b == 0 then a
    else 2 * Xor(a / 2, b / 2) + (a % 2 + b % 2) % 2
  }

  /** Logical shift right of an unsigned word, `a >> s`: `s` single-bit
      shifts. */
  function Shr(a: nat, s: nat): nat
  {
    if s == 0 then a else Shr(a / 2, s - 1)
  }

  /** Shift left of a `u32`: bits shifted past bit 31 are lost. */
  function Shl32(a: nat, s: nat): U32
  {
    (a * Pow2(s)) % WORD
  }

  /** Shift left of a `u8`: bits shifted past bit 7 are lost. */
  function Shl8(a: nat, s: nat): U8
  {
    (a * Pow2(s)) % 0x100
  }

  /** True when bit `i` of `w` is set. */
  predicate TestBit(w: nat, i: nat)
  {
    if i == 0 then w % 2 == 1 else TestBit(w / 2, i - 1)
  }

  // ---------------------------------------------------------------------
  // Division and remainder by powers of two

  lemma ModUnique(n: nat, d: nat, q: nat, s: nat)
    requires 0 <= s < d && n == q * d + s
    ensures n / d == q && n % d == s
  {
    var q', s' := n / d, n % d;
    assert (q' - q) * d == s - s';
    if q' > q {
      MulAtLeast(q' - q, d);
    } else if q' < q {
      MulAtLeast(q - q', d);
    }
  }

  lemma {:induction false} DivDiv(n: nat, a: nat, b: nat)
    requires a > 0 && b > 0
    ensures n / a / b == n / (a * b)
  {
    var q, r1 := n / a, n % a;
    var q2, r2 := q / b, q % b;
    Regroup(n, a, b, q, r1, q2, r2);
    ModUnique(n, a * b, q2, r2 * a + r1);
  }

  lemma Regroup(n: nat, a: nat, b: nat, q: nat, r1: nat, q2: nat, r2: nat)
    requires n == q * a + r1 && q == q2 * b + r2 && r1 < a && r2 < b
    ensures n == q2 * (a * b) + (r2 * a + r1) && r2 * a + r1 < a * b
  {
    assert q * a == q2 * (a * b) + r2 * a;
    MulMonotone(r2, b - 1, a);
    assert (b - 1) * a == a * b - a;
  }

  lemma MulMonotone(x: nat, y: nat, a: nat)
    requires x <= y
    ensures x * a <= y * a
  {
  }

  lemma MulAtLeast(a: nat, d: nat)
    requires a >= 1
    ensures a * d >= d
  {
  }

  /** Taking the low `k + 1` bits is taking the low bit and the low `k` bits
      of the rest. */
  lemma {:induction false} ModDouble(n: nat, m: nat)
    requires m > 0
    ensures n % (2 * m) == 2 * ((n / 2) % m) + n % 2
    ensures n / (2 * m) == (n / 2) / m
  {
    var q, t := n / 2, n % 2;
    var a, b := q / m, q % m;
    assert n == a * (2 * m) + (2 * b + t) by {
      assert q == a * m + b;
      assert n == 2 * q + t;
    }
    ModUnique(n, 2 * m, a, 2 * b + t);
  }

  lemma Pow2Values()
    ensures Pow2(4) == 16 && Pow2(16) == 0x1_0000 && Pow2(32) == WORD
  {
    Pow2Add(16, 16);
  }

  lemma {:induction false} Pow2Add(a: nat, b: nat)
    ensures Pow2(a + b) == Pow2(a) * Pow2(b)
  {
    if a > 0 {
      Pow2Add(a - 1, b);
    }
  }

  lemma {:induction false} Pow2Monotone(i: nat, k: nat)
    requires i < k
    ensures Pow2(i) < Pow2(k)
  {
    if i < k - 1 {
      Pow2Monotone(i, k - 1);
    }
  }

  // ---------------------------------------------------------------------
  // Population count

  lemma PopcountDouble(x: nat, t: nat)
    requires t < 2
    ensures Popcount(2 * x + t) == t + Popcount(x)
  {
  }

  /** A value's popcount is the popcount of its `k` low bits plus the popcount
      of the bits above them; with `k == 4` it is the low nibble plus the rest. */
  lemma {:induction false} PopcountSplit(n: nat, k: nat)
    ensures Popcount(n) == Popcount(n % Pow2(k)) + Popcount(Shr(n, k))
  {
    if k == 0 {
      assert n % 1 == 0;
    } else {
      var m := Pow2(k - 1);
      assert Pow2(k) == 2 * m;
      PopcountSplit(n / 2, k - 1);
      ModDouble(n, m);
      assert n % Pow2(k) == 2 * ((n / 2) % m) + n % 2;
      PopcountDouble((n / 2) % m, n % 2);
      assert Popcount(n) == n % 2 + Popcount(n / 2);
    }
  }

  /** A value below 2^k has at most k set bits. */
  lemma {:induction false} PopcountBound(n: nat, k: nat)
    requires n < Pow2(k)
    ensures Popcount(n) <= k
  {
    if n > 0 {
      PopcountBound(n / 2, k - 1);
    }
  }

  /** Shifting right by `s` and then by `t` is shifting right by `s + t`. */
  lemma {:induction false} ShrShr(n: nat, s: nat, t: nat)
    ensures Shr(Shr(n, s), t) == Shr(n, s + t)
  {
    if s > 0 {
      ShrShr(n / 2, s - 1, t);
    }
  }

  /** Shifting right by `s` is dividing by 2^s. */
  lemma {:induction false} ShrIsDiv(n: nat, s: nat)
    ensures Shr(n, s) == n / Pow2(s)
  {
    if s > 0 {
      ShrIsDiv(n / 2, s - 1);
      DivDiv(n, 2, Pow2(s - 1));
    }
  }

  // ---------------------------------------------------------------------
  // Bitwise operators

  /** Masking with 2^k - 1 keeps the `k` low bits. */
  lemma {:induction false} AndLowMask(x: nat, k: nat)
    ensures And(x, Pow2(k) - 1) == x % Pow2(k)
  {
    if k == 0 {
      assert x % 1 == 0;
    } else if x == 0 {
      assert 0 % Pow2(k) == 0;
    } else {
      var m := Pow2(k - 1);
      assert (2 * m - 1) / 2 == m - 1 && (2 * m - 1) % 2 == 1;
      AndLowMask(x / 2, k - 1);
      ModDouble(x, m);
    }
  }

  lemma {:induction false} AndComm(a: nat, b: nat)
    ensures And(a, b) == And(b, a)
    decreases a
  {
    if a != 0 && b != 0 {
      AndComm(a / 2, b / 2);
    }
  }

  lemma {:induction false} XorComm(a: nat, b: nat)
    ensures Xor(a, b) == Xor(b, a)
    decreases a + b
  {
    if a != 0 && b != 0 {
      XorComm(a / 2, b / 2);
    }
  }

  /** A word XOR itself is 0. */
  lemma {:induction false} XorSelf(a: nat)
    ensures Xor(a, a) == 0
  {
    if a != 0 {
      XorSelf(a / 2);
    }
  }

  /** The halves of a XOR are the XOR of the halves; its low bit is the
      parity of the low bits. */
  lemma XorHalves(a: nat, b: nat)
    ensures Xor(a, b) / 2 == Xor(a / 2, b / 2)
    ensures Xor(a, b) % 2 == (a % 2 + b % 2) % 2
  {
    var t := (a % 2 + b % 2) % 2;
    assert Xor(a, b) == 2 * Xor(a / 2, b / 2) + t;
  }

  lemma XorOdd(a: nat, b: nat)
    ensures Xor(a, b) % 2 == 1 <==> (a % 2 == 1) != (b % 2 == 1)
  {
    XorHalves(a, b);
  }

  lemma {:induction false} XorAssoc(a: nat, b: nat, c: nat)
    ensures Xor(Xor(a, b), c) == Xor(a, Xor(b, c))
    decreases a + b + c
  {
    if a + b + c != 0 {
      XorAssoc(a / 2, b / 2, c / 2);
      XorAssocStep(a, b, c);
    }
  }

  lemma XorAssocStep(a: nat, b: nat, c: nat)
    requires Xor(Xor(a / 2, b / 2), c / 2) == Xor(a / 2, Xor(b / 2, c / 2))
    ensures Xor(Xor(a, b), c) == Xor(a, Xor(b, c))
  {
    XorAssocHigh(a, b, c);
    XorAssocLow(a, b, c);
    SameHalves(Xor(Xor(a, b), c), Xor(a, Xor(b, c)));
  }

  lemma XorAssocHigh(a: nat, b: nat, c: nat)
    requires Xor(Xor(a / 2, b / 2), c / 2) == Xor(a / 2, Xor(b / 2, c / 2))
    ensures Xor(Xor(a, b), c) / 2 == Xor(a, Xor(b, c)) / 2
  {
    XorHalves(a, b);
    XorHalves(b, c);
    XorHalves(Xor(a, b), c);
    XorHalves(a, Xor(b, c));
  }

  lemma XorAssocLow(a: nat, b: nat, c: nat)
    ensures Xor(Xor(a, b), c) % 2 == Xor(a, Xor(b, c)) % 2
  {
    var ab, bc := Xor(a, b), Xor(b, c);
    XorOdd(a, b);
    XorOdd(b, c);
    XorOdd(ab, c);
    XorOdd(a, bc);
  }

  lemma SameHalves(l: nat, r: nat)
    requires l / 2 == r / 2 && l % 2 == r % 2
    ensures l == r
  {
  }


  lemma {:induction false} XorBound(a: nat, b: nat, k: nat)
    requires a < Pow2(k) && b < Pow2(k)
    ensures Xor(a, b) < Pow2(k)
    decreases a + b
  {
    if a != 0 && b != 0 {
      XorBound(a / 2, b / 2, k - 1);
    }
  }

  lemma {:induction false} OrBound(a: nat, b: nat, k: nat)
    requires a < Pow2(k) && b < Pow2(k)
    ensures Or(a, b) < Pow2(k)
    decreases a + b
  {
    if a != 0 && b != 0 {
      OrBound(a / 2, b / 2, k - 1);
    }
  }

  /** Bit `i` of an OR is set exactly when it is set in either operand. */
  lemma {:induction false} TestBitOr(a: nat, b: nat, i: nat)
    ensures TestBit(Or(a, b), i) == (TestBit(a, i) || TestBit(b, i))
    decreases i
  {
    if a == 0 {
      TestBitZero(i);
    } else if b == 0 {
      TestBitZero(i);
    } else if i > 0 {
      TestBitOr(a / 2, b / 2, i - 1);
    }
  }

  lemma {:induction false} TestBitZero(i: nat)
    ensures !TestBit(0, i)
  {
    if i > 0 {
      TestBitZero(i - 1);
    }
  }

  /** 2^s has bit s set and no other. */
  lemma {:induction false} TestBitPow2(s: nat, i: nat)
    ensures TestBit(Pow2(s), i) == (i == s)
  {
    if s == 0 {
      if i > 0 {
        TestBitZero(i - 1);
      }
    } else if i > 0 {
      TestBitPow2(s - 1, i - 1);
    }
  }
}
