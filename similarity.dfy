/** The integer accumulators of the two similarity scores: the Hamming
    distance summed over bit planes (`cosine_coalesce`) and the weighted
    count of common set bits (`cosine_similarity_new`).  Both stop where the
    source turns the accumulator into a float. */
module Similarity {
  import opened Bits
  import Tables = Popcount
  import BitPlanes

  /** A quantised vector: one row of 32-bit words per bit plane, and the
      number of bits per component it was packed with. */
  datatype VectorQt = VectorQt(quantVec: seq<seq<U32>>, resolution: U8)

  // ---------------------------------------------------------------------
  // cosine_coalesce: summed Hamming distance
  // ---------------------------------------------------------------------

  /** Sum of the Hamming distances of the first `n` word pairs of two rows. */
  function RowHamming(xs: seq<U32>, ys: seq<U32>, n: nat): nat
    requires n <= |xs| && n <= |ys|
  {
    if n == 0 then 0 else RowHamming(xs, ys, n - 1) + Popcount(Xor(xs[n - 1], ys[n - 1]))
  }

  /** Every word the loops read exists: when `n` words are read from each
      of the first `parts` planes, both vectors have those planes and those
      words. When no word is read (`n == 0`) nothing is indexed. */
  predicate PlanesCover(xp: seq<seq<U32>>, yp: seq<seq<U32>>, parts: nat, n: nat)
  {
    n > 0 ==>
      && parts <= |xp| && parts <= |yp|
      && (forall p :: 0 <= p < parts ==> n <= |xp[p]|)
      && (forall p :: 0 <= p < parts ==> n <= |yp[p]|)
  }

  /** Sum of `RowHamming` over the first `parts` planes. */
  function HammingSum(xp: seq<seq<U32>>, yp: seq<seq<U32>>, parts: nat, n: nat): nat
    requires PlanesCover(xp, yp, parts, n)
  {
    if parts == 0 || n == 0 then 0
    else HammingSum(xp, yp, parts - 1, n) + RowHamming(xp[parts - 1], yp[parts - 1], n)
  }

  /** The two nested loops of `cosine_coalesce`: for each of the first
      `parts` planes, the popcounts of the xor of the first `quantLen` word
      pairs, looked up in the table, added into `sum` and then into the
      total. */
  method CoalesceSum(table: Tables.PopcountTable, xp: seq<seq<U32>>, yp: seq<seq<U32>>, parts: nat, quantLen: nat)
    returns (finalResult: nat)
    requires table.Valid() && table.Ready()
    requires PlanesCover(xp, yp, parts, quantLen)
    ensures finalResult == HammingSum(xp, yp, parts, quantLen)
  {
    finalResult := 0;
    var index := 0;
    while index < parts
      invariant index <= parts
      invariant finalResult == HammingSum(xp, yp, index, quantLen)
    {
      var sum := 0;
      var jj := 0;
      while jj < quantLen
        invariant jj <= quantLen
        invariant quantLen > 0 ==> sum == RowHamming(xp[index], yp[index], jj)
        invariant quantLen == 0 ==> sum == 0
      {
        var xItem := xp[index][jj];
        var yItem := yp[index][jj];
        assert Xor(xItem, yItem) < WORD by {
          Pow2Values();
          XorBound(xItem, yItem, 32);
        }
        var xorResult: U32 := Xor(xItem, yItem);
        sum := sum + table.ShiftAndAccumulate(xorResult);
        jj := jj + 1;
      }
      assert HammingSum(xp, yp, index + 1, quantLen) == HammingSum(xp, yp, index, quantLen) + sum;
      finalResult := finalResult + sum;
      index := index + 1;
    }
  }

  /** The accumulator `final_result` of `cosine_coalesce` as written, before
      the division: it reads `2^x.resolution` planes and `length >> 5` words
      of each. */
  method CosineCoalesceSum(table: Tables.PopcountTable, x: VectorQt, y: VectorQt, length: nat)
    returns (finalResult: nat)
    requires table.Valid() && table.Ready()
    requires PlanesCover(x.quantVec, y.quantVec, Pow2(x.resolution), Shr(length, 5))
    ensures finalResult == HammingSum(x.quantVec, y.quantVec, Pow2(x.resolution), Shr(length, 5))
  {
    var parts := Pow2(x.resolution);
    var quantLen := Shr(length, 5);
    finalResult := CoalesceSum(table, x.quantVec, y.quantVec, parts, quantLen);
  }

  /** `cosine_coalesce` reading the `x.resolution` planes the packer makes;
      its divisor `length · resolution` is then the number of packed bits. */
  method CosineCoalesceSumCorrected(table: Tables.PopcountTable, x: VectorQt, y: VectorQt, length: nat)
    returns (finalResult: nat)
    requires table.Valid() && table.Ready()
    requires PlanesCover(x.quantVec, y.quantVec, x.resolution, Shr(length, 5))
    ensures finalResult == HammingSum(x.quantVec, y.quantVec, x.resolution, Shr(length, 5))
    ensures finalResult <= length * x.resolution
  {
    var parts: nat := x.resolution;
    var quantLen := Shr(length, 5);
    finalResult := CoalesceSum(table, x.quantVec, y.quantVec, parts, quantLen);
    CoalesceBelowDivisor(x.quantVec, y.quantVec, parts, length);
  }

  /** Two vectors packed at resolution `r` from `length` components each are
      accepted by the corrected coalesce. */
  lemma PackedCoalesceAccepted(xp: seq<seq<U32>>, yp: seq<seq<U32>>, cx: seq<nat>, cy: seq<nat>, r: nat, length: nat)
    requires BitPlanes.Packed(xp, cx, r) && BitPlanes.Packed(yp, cy, r)
    requires |cx| == length && |cy| == length
    ensures PlanesCover(xp, yp, r, Shr(length, 5))
  {
    assert Shr(length, 5) == length / 32 by {
      Pow2Values();
      Pow2Add(4, 1);
      ShrIsDiv(length, 5);
    }
  }

  /** The Hamming sum does not depend on the order of its arguments. */
  lemma {:induction false} HammingSumSymmetric(xp: seq<seq<U32>>, yp: seq<seq<U32>>, parts: nat, n: nat)
    requires PlanesCover(xp, yp, parts, n)
    ensures PlanesCover(yp, xp, parts, n)
    ensures HammingSum(xp, yp, parts, n) == HammingSum(yp, xp, parts, n)
  {
    if parts > 0 && n > 0 {
      HammingSumSymmetric(xp, yp, parts - 1, n);
      RowHammingSymmetric(xp[parts - 1], yp[parts - 1], n);
    }
  }

  lemma {:induction false} RowHammingSymmetric(xs: seq<U32>, ys: seq<U32>, n: nat)
    requires n <= |xs| && n <= |ys|
    ensures RowHamming(xs, ys, n) == RowHamming(ys, xs, n)
  {
    if n > 0 {
      RowHammingSymmetric(xs, ys, n - 1);
      XorComm(xs[n - 1], ys[n - 1]);
    }
  }

  /** The Hamming sum is zero exactly when the covered words agree. */
  lemma {:induction false} HammingSumZero(xp: seq<seq<U32>>, yp: seq<seq<U32>>, parts: nat, n: nat)
    requires PlanesCover(xp, yp, parts, n)
    ensures HammingSum(xp, yp, parts, n) == 0 <==>
      forall p, w :: 0 <= p < parts && 0 <= w < n ==> xp[p][w] == yp[p][w]
  {
    if parts > 0 && n > 0 {
      HammingSumZero(xp, yp, parts - 1, n);
      RowHammingZero(xp[parts - 1], yp[parts - 1], n);
    }
  }

  lemma {:induction false} RowHammingZero(xs: seq<U32>, ys: seq<U32>, n: nat)
    requires n <= |xs| && n <= |ys|
    ensures RowHamming(xs, ys, n) == 0 <==> forall w :: 0 <= w < n ==> xs[w] == ys[w]
  {
    if n > 0 {
      RowHammingZero(xs, ys, n - 1);
      PopcountZero(Xor(xs[n - 1], ys[n - 1]));
      XorZero(xs[n - 1], ys[n - 1]);
    }
  }

  lemma {:induction false} PopcountZero(a: nat)
    ensures Popcount(a) == 0 <==> a == 0
  {
    if a > 0 {
      PopcountZero(a / 2);
    }
  }

  /** The exclusive or of two numbers is zero exactly when they are equal. */
  lemma {:induction false} XorZero(a: nat, b: nat)
    ensures Xor(a, b) == 0 <==> a == b
    decreases a + b
  {
    if a != 0 && b != 0 {
      XorZero(a / 2, b / 2);
    }
  }

  /** A vector compared with itself has Hamming sum zero. */
  lemma HammingSumSelf(xp: seq<seq<U32>>, parts: nat, n: nat)
    requires PlanesCover(xp, xp, parts, n)
    ensures HammingSum(xp, xp, parts, n) == 0
  {
    HammingSumZero(xp, xp, parts, n);
  }

  /** At most 32 differing bits per word, so at most `32·n` per plane. */
  lemma {:induction false} HammingSumBound(xp: seq<seq<U32>>, yp: seq<seq<U32>>, parts: nat, n: nat)
    requires PlanesCover(xp, yp, parts, n)
    ensures HammingSum(xp, yp, parts, n) <= parts * (32 * n)
  {
    if parts > 0 && n > 0 {
      HammingSumBound(xp, yp, parts - 1, n);
      RowHammingBound(xp[parts - 1], yp[parts - 1], n);
      BoundStep(HammingSum(xp, yp, parts - 1, n), RowHamming(xp[parts - 1], yp[parts - 1], n), parts, 32 * n);
    }
  }

  lemma BoundStep(before: nat, row: nat, parts: nat, m: nat)
    requires parts > 0 && before <= (parts - 1) * m && row <= m
    ensures before + row <= parts * m
  {
  }

  lemma {:induction false} RowHammingBound(xs: seq<U32>, ys: seq<U32>, n: nat)
    requires n <= |xs| && n <= |ys|
    ensures RowHamming(xs, ys, n) <= 32 * n
  {
    if n > 0 {
      RowHammingBound(xs, ys, n - 1);
      Pow2Values();
      XorBound(xs[n - 1], ys[n - 1], 32);
      PopcountBound(Xor(xs[n - 1], ys[n - 1]), 32);
    }
  }

  /** The divisor `length · parts` bounds the accumulator, so the score
      `1 - final_result / (length · parts)` lies between 0 and 1. */
  lemma CoalesceBelowDivisor(xp: seq<seq<U32>>, yp: seq<seq<U32>>, parts: nat, length: nat)
    requires PlanesCover(xp, yp, parts, Shr(length, 5))
    ensures HammingSum(xp, yp, parts, Shr(length, 5)) <= length * parts
  {
    var n := Shr(length, 5);
    HammingSumBound(xp, yp, parts, n);
    assert 32 * n <= length by {
      assert Pow2(5) == 32 by { Pow2Add(4, 1); Pow2Values(); }
      ShrIsDiv(length, 5);
    }
    MulMonotone(32 * n, length, parts);
  }

  /** Once a word is read from each plane (`length` at least 32), planes
      produced by the packer can never satisfy `cosine_coalesce`'s read of
      `2^r` planes: the packer makes only `r` of them, so plane `r` is read
      out of bounds. */
  lemma PackedRejectedByCoalesce(planes: seq<seq<U32>>, codes: seq<nat>, r: nat, yp: seq<seq<U32>>, n: nat)
    requires BitPlanes.Packed(planes, codes, r) && n > 0
    ensures |planes| < Pow2(r)
    ensures !PlanesCover(planes, yp, Pow2(r), n)
  {
    BelowPow2(r);
  }

  /** With fewer than 32 components no word is read: any operands are
      accepted and the accumulator stays 0. */
  lemma CoalesceShortInput(xp: seq<seq<U32>>, yp: seq<seq<U32>>, parts: nat, length: nat)
    requires length < 32
    ensures PlanesCover(xp, yp, parts, Shr(length, 5))
    ensures HammingSum(xp, yp, parts, Shr(length, 5)) == 0
  {
    assert Shr(length, 5) == 0 by {
      Pow2Values();
      Pow2Add(4, 1);
      ShrIsDiv(length, 5);
    }
  }

  lemma {:induction false} BelowPow2(r: nat)
    ensures r < Pow2(r)
  {
    if r > 0 {
      BelowPow2(r - 1);
    }
  }

  // ---------------------------------------------------------------------
  // cosine_similarity_new: weighted count of common bits
  // ---------------------------------------------------------------------

  /** Rust's `u32 as i32`: the same 32 bits read in two's complement. */
  function I32(v: U32): (r: int)
    ensures -0x8000_0000 <= r < 0x8000_0000
    ensures (r + WORD) % WORD == v
  {
    if v < 0x8000_0000 then v else v - WORD
  }

  /** One term `(popcount(a & b) << index) as i32 - 16`. */
  function AndTerm(a: U32, b: U32, index: nat): int
  {
    I32(Shl32(Popcount(And(a, b)), index)) - 16
  }

  /** Sum of the terms over the first `n` word pairs of plane `index`. */
  function RowAnd(xs: seq<U32>, ys: seq<U32>, index: nat, n: nat): int
    requires n <= |xs| && n <= |ys|
  {
    if n == 0 then 0 else RowAnd(xs, ys, index, n - 1) + AndTerm(xs[n - 1], ys[n - 1], index)
  }

  /** Sum of `RowAnd` over the first `planes` planes, each at its own index. */
  function AndSum(xp: seq<seq<U32>>, yp: seq<seq<U32>>, planes: nat, n: nat): int
    requires PlanesCover(xp, yp, planes, n)
  {
    if planes == 0 || n == 0 then 0
    else AndSum(xp, yp, planes - 1, n) + RowAnd(xp[planes - 1], yp[planes - 1], planes - 1, n)
  }

  /** The word count every plane is read with: the length of plane 0. */
  function InnerLength(xp: seq<seq<U32>>): nat
  {
    if |xp| == 0 then 0 else |xp[0]|
  }

  /** The accumulator `dot_product_and_count` of `cosine_similarity_new`.
      A shift by 32 or more panics in Rust, hence at most 32 planes whenever
      a word is read. */
  method CosineSimilarityNewAndCount(table: Tables.PopcountTable, x: VectorQt, y: VectorQt)
    returns (count: int)
    requires table.Valid() && table.Ready()
    requires InnerLength(x.quantVec) > 0 ==> |x.quantVec| <= 32
    requires PlanesCover(x.quantVec, y.quantVec, |x.quantVec|, InnerLength(x.quantVec))
    ensures count == AndSum(x.quantVec, y.quantVec, |x.quantVec|, InnerLength(x.quantVec))
  {
    var vec1 := x.quantVec;
    var vec2 := y.quantVec;
    var vec1Len := |vec1|;
    count := 0;
    var index := 0;
    while index < vec1Len
      invariant index <= vec1Len
      invariant count == AndSum(vec1, vec2, index, InnerLength(vec1))
    {
      var innerProductLen := |vec1[0]|;
      var i := 0;
      while i < innerProductLen
        invariant i <= innerProductLen
        invariant innerProductLen > 0 ==>
                    count == AndSum(vec1, vec2, index, innerProductLen) + RowAnd(vec1[index], vec2[index], index, i)
        invariant innerProductLen == 0 ==> count == AndSum(vec1, vec2, index, innerProductLen)
      {
        var a := vec1[index][i];
        var b := vec2[index][i];
        var both: U32 := And(a, b);
        var bits := table.ShiftAndAccumulate(both);
        count := count + (I32(Shl32(bits, index)) - 16);
        i := i + 1;
      }
      index := index + 1;
    }
  }

  /** The and-count does not depend on the order of its arguments. */
  lemma {:induction false} AndSumSymmetric(xp: seq<seq<U32>>, yp: seq<seq<U32>>, planes: nat, n: nat)
    requires PlanesCover(xp, yp, planes, n)
    ensures PlanesCover(yp, xp, planes, n)
    ensures AndSum(xp, yp, planes, n) == AndSum(yp, xp, planes, n)
  {
    if planes > 0 && n > 0 {
      AndSumSymmetric(xp, yp, planes - 1, n);
      RowAndSymmetric(xp[planes - 1], yp[planes - 1], planes - 1, n);
    }
  }

  lemma {:induction false} RowAndSymmetric(xs: seq<U32>, ys: seq<U32>, index: nat, n: nat)
    requires n <= |xs| && n <= |ys|
    ensures RowAnd(xs, ys, index, n) == RowAnd(ys, xs, index, n)
  {
    if n > 0 {
      RowAndSymmetric(xs, ys, index, n - 1);
      AndComm(xs[n - 1], ys[n - 1]);
    }
  }

  /** Number of common set bits of the first `n` word pairs. */
  function CommonBits(xs: seq<U32>, ys: seq<U32>, n: nat): nat
    requires n <= |xs| && n <= |ys|
  {
    if n == 0 then 0 else CommonBits(xs, ys, n - 1) + Popcount(And(xs[n - 1], ys[n - 1]))
  }

  /** While no shift overflows (index at most 25, since a word has at most
      32 set bits), plane `index` contributes its common bits weighted by
      `2^index`, less 16 per word pair. */
  lemma {:induction false} RowAndWeighted(xs: seq<U32>, ys: seq<U32>, index: nat, n: nat)
    requires n <= |xs| && n <= |ys|
    requires index <= 25
    ensures RowAnd(xs, ys, index, n) == Pow2(index) * CommonBits(xs, ys, n) - 16 * n
  {
    if n > 0 {
      RowAndWeighted(xs, ys, index, n - 1);
      AndTermWeighted(xs[n - 1], ys[n - 1], index);
      WeightedStep(RowAnd(xs, ys, index, n - 1), AndTerm(xs[n - 1], ys[n - 1], index),
                   Pow2(index), CommonBits(xs, ys, n - 1), Popcount(And(xs[n - 1], ys[n - 1])), n);
    }
  }

  lemma WeightedStep(before: int, term: int, w: nat, common: nat, c: nat, n: nat)
    requires n > 0
    requires before == w * common - 16 * (n - 1) && term == w * c - 16
    ensures before + term == w * (common + c) - 16 * n
  {
    assert w * (common + c) == w * common + w * c;
  }

  lemma AndTermWeighted(a: U32, b: U32, index: nat)
    requires index <= 25
    ensures AndTerm(a, b, index) == Pow2(index) * Popcount(And(a, b)) - 16
  {
    var c := Popcount(And(a, b));
    assert c <= 32 by {
      Pow2Values();
      PopcountBound(And(a, b), 32);
    }
    ShiftWithoutWrap(c, index);
  }

  /** Shifting at most 32 by at most 25 stays below `2^31`: no bit is lost
      and the `i32` reading is the same number. */
  lemma ShiftWithoutWrap(c: nat, index: nat)
    requires c <= 32 && index <= 25
    ensures Shl32(c, index) == c * Pow2(index) == Pow2(index) * c
    ensures I32(Shl32(c, index)) == c * Pow2(index)
  {
    var w := Pow2(index);
    assert w <= 0x200_0000 by {
      Pow2Top();
      if index < 25 {
        Pow2Monotone(index, 25);
      }
    }
    assert c * w <= 0x4000_0000 by {
      MulMonotone(c, 32, w);
      MulMonotone(w, 0x200_0000, 32);
    }
    ModUnique(c * w, WORD, 0, c * w);
  }

  lemma Pow2Top()
    ensures Pow2(25) == 0x200_0000
  {
    Pow2Values();
    Pow2Add(16, 9);
    Pow2Add(4, 5);
    assert Pow2(5) == 2 * Pow2(4);
  }

  /** At plane 31 a single common bit already wraps: `1 << 31` read as `i32`
      is the most negative value. */
  lemma AndTermWrapsAtTopPlane()
    ensures AndTerm(1, 1, 31) == -0x8000_0000 - 16
  {
    Pow2Values();
    assert Pow2(32) == 2 * Pow2(31);
    assert And(1, 1) == 1;
    assert Popcount(1) == 1;
  }
}
