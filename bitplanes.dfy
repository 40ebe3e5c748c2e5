/** Bit-plane packing (org/src/main.rs:248-300): a component's bucket number
    becomes `r` flags, most significant bit first, and flag `k` of
    component `i` is stored at bit `i mod 32` of word `i div 32` of plane
    `k`. The float-to-bucket step is not modelled: callers pass the bucket
    numbers. */
module BitPlanes {
  import opened Bits

  /** The `r` flags of a bucket number, most significant first: flag `k` is
      bit `r - 1 - k` of `num`. */
  function Flags(num: nat, r: nat): (f: seq<bool>)
    ensures |f| == r
  {
    seq(r, k requires 0 <= k < r => TestBit(num, r - 1 - k))
  }

  /** The sequence in reverse order (Rust's `Vec::reverse`). */
  function Reverse<T>(s: seq<T>): (r: seq<T>)
    ensures |r| == |s|
    ensures forall k :: 0 <= k < |s| ==> r[k] == s[|s| - 1 - k]
  {
    if s == [] then [] else [s[|s| - 1]] + Reverse(s[..|s| - 1])
  }

  /** Bit `i` of `num` is the low bit of `num >> i`. */
  lemma {:induction false} TestBitShr(num: nat, i: nat)
    ensures TestBit(num, i) == (Shr(num, i) % 2 == 1)
  {
    if i > 0 {
      TestBitShr(num / 2, i - 1);
    }
  }

  /** `num & 1` is the low bit of `num`. */
  lemma AndOne(n: nat)
    ensures And(n, 1) == n % 2
  {
    AndLowMask(n, 1);
  }

  /** `to_float_flag` once the bucket number `num` is known: take the low bit
      and shift right, `bits_per_value` times, then reverse. */
  method ToFloatFlag(num: nat, bitsPerValue: nat) returns (result: seq<bool>)
    ensures result == Flags(num, bitsPerValue)
  {
    var n := num;
    var lsbFirst: seq<bool> := [];
    var i := bitsPerValue;
    while i > 0
      invariant 0 <= i <= bitsPerValue
      invariant |lsbFirst| == bitsPerValue - i
      invariant n == Shr(num, |lsbFirst|)
      invariant forall j :: 0 <= j < |lsbFirst| ==> lsbFirst[j] == TestBit(num, j)
    {
      i := i - 1;
      TestBitShr(num, |lsbFirst|);
      AndOne(n);
      ShrShr(num, |lsbFirst|, 1);
      lsbFirst := lsbFirst + [And(n, 1) == 1];
      n := Shr(n, 1);
    }
    result := Reverse(lsbFirst);
    forall k | 0 <= k < bitsPerValue
      ensures result[k] == Flags(num, bitsPerValue)[k]
    {
      assert result[k] == lsbFirst[bitsPerValue - 1 - k];
    }
  }

  /** The bucket number that MSB-first flags spell. */
  function Code(f: seq<bool>): nat
  {
    if f == [] then 0 else 2 * Code(f[..|f| - 1]) + (if f[|f| - 1] then 1 else 0)
  }

  /** Decoding the flags gives back the bucket number modulo 2^r: the flags
      keep exactly the low `r` bits. */
  lemma {:induction false} FlagsRoundTrip(num: nat, r: nat)
    ensures Code(Flags(num, r)) == num % Pow2(r)
  {
    if r == 0 {
      assert num % 1 == 0;
    } else {
      var f := Flags(num, r);
      forall k | 0 <= k < r - 1
        ensures f[k] == Flags(num / 2, r - 1)[k]
      {
        assert f[k] == TestBit(num, r - 1 - k);
      }
      assert f[..r - 1] == Flags(num / 2, r - 1);
      assert f[r - 1] == TestBit(num, 0);
      FlagsRoundTrip(num / 2, r - 1);
      ModDouble(num, Pow2(r - 1));
    }
  }

  /** Bits at or above `r` do not reach the flags. */
  lemma {:induction false} TestBitMod(num: nat, r: nat, j: nat)
    requires j < r
    ensures TestBit(num % Pow2(r), j) == TestBit(num, j)
  {
    var m := Pow2(r - 1);
    var low := num % Pow2(r);
    assert low == 2 * ((num / 2) % m) + num % 2 by {
      ModDouble(num, m);
    }
    assert low / 2 == (num / 2) % m && low % 2 == num % 2;
    if j > 0 {
      TestBitMod(num / 2, r - 1, j - 1);
    }
  }

  /** The flags depend only on the low `r` bits of the bucket number. */
  lemma FlagsDropHighBits(num: nat, r: nat)
    ensures Flags(num, r) == Flags(num % Pow2(r), r)
  {
    forall k | 0 <= k < r
      ensures Flags(num, r)[k] == Flags(num % Pow2(r), r)[k]
    {
      TestBitMod(num, r, r - 1 - k);
    }
  }

  /** There is no clamp at the upper boundary: bucket number 2^r packs as
      code 0, all flags clear. */
  lemma BoundaryWrapsToZero(r: nat)
    ensures forall k :: 0 <= k < r ==> !Flags(Pow2(r), r)[k]
    ensures Code(Flags(Pow2(r), r)) == 0
  {
    FlagsDropHighBits(Pow2(r), r);
    assert Pow2(r) % Pow2(r) == 0;
    forall k | 0 <= k < r
      ensures !Flags(0, r)[k]
    {
      TestBitZero(r - 1 - k);
    }
    FlagsRoundTrip(Pow2(r), r);
  }

  // ---------------------------------------------------------------------
  // Packing flags into planes of 32-bit words

  /** Flag `k` of component `i`. */
  function FlagAt(codes: seq<nat>, r: nat, k: nat, i: nat): bool
    requires k < r && i < |codes|
  {
    Flags(codes[i], r)[k]
  }

  /** Word `w` of plane `k`, given the components before `lim`: bit `b`
      holds flag `k` of component `32 * w + b` when that component is before
      `lim`, and is clear otherwise. */
  ghost predicate WordHolds(word: nat, codes: seq<nat>, lim: nat, r: nat, k: nat, w: nat)
    requires lim <= |codes| && k < r
  {
    forall b :: 0 <= b < 32 ==>
      TestBit(word, b) == (32 * w + b < lim && FlagAt(codes, r, k, 32 * w + b))
  }

  /** The bit-plane layout of `codes` at resolution `r`: `r` planes, each of
      ceil(n / 32) words, every word as `WordHolds` describes. */
  ghost predicate Packed(planes: seq<seq<U32>>, codes: seq<nat>, r: nat)
  {
    && |planes| == r
    && (forall k :: 0 <= k < r ==> |planes[k]| == (|codes| + 31) / 32)
    && (forall k, w :: 0 <= k < r && 0 <= w < |planes[k]| ==>
          WordHolds(planes[k][w], codes, |codes|, r, k, w))
  }

  /** `current_u32s[k] |= 1 << bit_index` for a set flag, nothing for a clear
      one: the word then also holds the component at `bit_index`. */
  lemma AddComponent(cur: U32, next: nat, codes: seq<nat>, r: nat, k: nat, full: nat, bitIndex: nat)
    requires k < r && bitIndex < 32 && 32 * full + bitIndex < |codes|
    requires WordHolds(cur, codes, 32 * full + bitIndex, r, k, full)
    requires next == if FlagAt(codes, r, k, 32 * full + bitIndex) then Or(cur, Shl32(1, bitIndex)) else cur
    ensures next < WORD && WordHolds(next, codes, 32 * full + bitIndex + 1, r, k, full)
  {
    var flag := FlagAt(codes, r, k, 32 * full + bitIndex);
    assert Shl32(1, bitIndex) == Pow2(bitIndex) && Pow2(bitIndex) < WORD by {
      Pow2Values();
      Pow2Monotone(bitIndex, 32);
    }
    assert next < WORD by {
      Pow2Values();
      OrBound(cur, Pow2(bitIndex), 32);
    }
    forall b | 0 <= b < 32
      ensures TestBit(next, b) == (32 * full + b < 32 * full + bitIndex + 1 && FlagAt(codes, r, k, 32 * full + b))
    {
      SetOneBit(cur, next, bitIndex, b, flag);
    }
  }

  /** Or-ing in bit `bitIndex` when `flag` holds sets that bit and keeps the
      others. */
  lemma SetOneBit(cur: nat, next: nat, bitIndex: nat, b: nat, flag: bool)
    requires next == if flag then Or(cur, Pow2(bitIndex)) else cur
    ensures TestBit(next, b) == (TestBit(cur, b) || (flag && b == bitIndex))
  {
    TestBitOr(cur, Pow2(bitIndex), b);
    TestBitPow2(bitIndex, b);
  }

  /** A zero word holds no component. */
  lemma EmptyWord(codes: seq<nat>, lim: nat, r: nat, k: nat, w: nat)
    requires lim <= |codes| && k < r && lim <= 32 * w
    ensures WordHolds(0, codes, lim, r, k, w)
  {
    forall b | 0 <= b < 32
      ensures !TestBit(0, b)
    {
      TestBitZero(b);
    }
  }

  /** A word whose 32 components all lie before `lim` holds them for any
      later `lim'` as well. */
  lemma FullWord(word: nat, codes: seq<nat>, lim: nat, lim': nat, r: nat, k: nat, w: nat)
    requires 32 * w + 32 <= lim <= |codes| && 32 * w + 32 <= lim' <= |codes| && k < r
    requires WordHolds(word, codes, lim, r, k, w)
    ensures WordHolds(word, codes, lim', r, k, w)
  {
  }

  /** Every plane with one more word at its end, taken from `column`. */
  function AppendColumn(planes: seq<seq<U32>>, column: seq<U32>): (r: seq<seq<U32>>)
    requires |column| == |planes|
    ensures |r| == |planes| && forall k :: 0 <= k < |r| ==> r[k] == planes[k] + [column[k]]
  {
    seq(|planes|, k requires 0 <= k < |planes| => planes[k] + [column[k]])
  }

  /** `quantize_to_u32_bits` once the bucket numbers are known: the flags of
      each component are or-ed into a per-plane word at `bit_index`; after 32
      components every plane gets its word and the words are reset, and a
      partial trailing word is pushed at the end. */
  method QuantizeToU32Bits(codes: seq<nat>, resolution: U8) returns (quantized: seq<seq<U32>>)
    ensures Packed(quantized, codes, resolution)
  {
    var bitsPerValue: nat := resolution;
    quantized := seq(bitsPerValue, _ => []);
    var currentU32s := new U32[bitsPerValue](_ => 0);
    var bitIndex: nat := 0;
    ghost var full: nat := 0;
    var i := 0;
    forall k | 0 <= k < bitsPerValue
      ensures WordHolds(currentU32s[k], codes, i, bitsPerValue, k, full)
    {
      EmptyWord(codes, i, bitsPerValue, k, full);
    }
    while i < |codes|
      invariant 0 <= i <= |codes|
      invariant bitIndex < 32 && i == 32 * full + bitIndex
      invariant currentU32s.Length == bitsPerValue && |quantized| == bitsPerValue
      invariant forall k :: 0 <= k < bitsPerValue ==> |quantized[k]| == full
      invariant forall k, w :: 0 <= k < bitsPerValue && 0 <= w < |quantized[k]| ==>
                  WordHolds(quantized[k][w], codes, |codes|, bitsPerValue, k, w)
      invariant forall k :: 0 <= k < bitsPerValue ==>
                  WordHolds(currentU32s[k], codes, i, bitsPerValue, k, full)
    {
      var flags := ToFloatFlag(codes[i], bitsPerValue);
      OrFlags(currentU32s, flags, bitIndex, codes, full);
      bitIndex := bitIndex + 1;

      if bitIndex == 32 {
        ghost var column := currentU32s[..];
        ghost var before := quantized;
        quantized := FlushWords(quantized, currentU32s);
        bitIndex := 0;
        full := full + 1;
        forall k, w | 0 <= k < bitsPerValue && 0 <= w < |quantized[k]|
          ensures WordHolds(quantized[k][w], codes, |codes|, bitsPerValue, k, w)
        {
          if w == full - 1 {
            FullWord(column[k], codes, i + 1, |codes|, bitsPerValue, k, w);
          } else {
            assert quantized[k][w] == before[k][w];
          }
        }
        forall k | 0 <= k < bitsPerValue
          ensures WordHolds(currentU32s[k], codes, i + 1, bitsPerValue, k, full)
        {
          EmptyWord(codes, i + 1, bitsPerValue, k, full);
        }
      }
      i := i + 1;
    }

    if bitIndex > 0 {
      ghost var before := quantized;
      quantized := PushWords(quantized, currentU32s);
      forall k, w | 0 <= k < bitsPerValue && 0 <= w < |quantized[k]|
        ensures WordHolds(quantized[k][w], codes, |codes|, bitsPerValue, k, w)
      {
        if w < full {
          assert quantized[k][w] == before[k][w];
        }
      }
    }
    assert (|codes| + 31) / 32 == if bitIndex > 0 then full + 1 else full;
  }

  /** The loop over `bit_position` for one component: a set flag sets bit
      `bit_index` of that plane's current word. */
  method OrFlags(words: array<U32>, flags: seq<bool>, bitIndex: nat, ghost codes: seq<nat>, ghost full: nat)
    requires words.Length == |flags| && bitIndex < 32 && 32 * full + bitIndex < |codes|
    requires flags == Flags(codes[32 * full + bitIndex], |flags|)
    requires forall k :: 0 <= k < words.Length ==>
               WordHolds(words[k], codes, 32 * full + bitIndex, |flags|, k, full)
    modifies words
    ensures forall k :: 0 <= k < words.Length ==>
              words[k] == if flags[k] then Or(old(words[k]), Shl32(1, bitIndex)) else old(words[k])
    ensures forall k :: 0 <= k < words.Length ==>
              WordHolds(words[k], codes, 32 * full + bitIndex + 1, |flags|, k, full)
  {
    for bitPosition := 0 to words.Length
      invariant forall k :: 0 <= k < bitPosition ==>
                  words[k] == (if flags[k] then Or(old(words[k]), Shl32(1, bitIndex)) else old(words[k])) &&
                  WordHolds(words[k], codes, 32 * full + bitIndex + 1, |flags|, k, full)
      invariant forall k :: bitPosition <= k < words.Length ==> words[k] == old(words[k])
    {
      ghost var cur := words[bitPosition];
      if flags[bitPosition] {
        AddComponent(cur, Or(cur, Shl32(1, bitIndex)), codes, |flags|, bitPosition, full, bitIndex);
        words[bitPosition] := Or(words[bitPosition], Shl32(1, bitIndex));
      } else {
        AddComponent(cur, cur, codes, |flags|, bitPosition, full, bitIndex);
      }
    }
  }

  /** The flush after 32 components: every plane gets its current word, and
      the word is reset to 0. */
  method FlushWords(planes: seq<seq<U32>>, words: array<U32>) returns (r: seq<seq<U32>>)
    requires words.Length == |planes|
    modifies words
    ensures r == AppendColumn(planes, old(words[..]))
    ensures forall k :: 0 <= k < words.Length ==> words[k] == 0
  {
    r := planes;
    for bitPosition := 0 to words.Length
      invariant |r| == |planes|
      invariant forall k :: 0 <= k < bitPosition ==> r[k] == planes[k] + [old(words[k])] && words[k] == 0
      invariant forall k :: bitPosition <= k < words.Length ==> r[k] == planes[k] && words[k] == old(words[k])
    {
      r := r[bitPosition := r[bitPosition] + [words[bitPosition]]];
      words[bitPosition] := 0;
    }
  }

  /** The trailing push of a partial word into every plane. */
  method PushWords(planes: seq<seq<U32>>, words: array<U32>) returns (r: seq<seq<U32>>)
    requires words.Length == |planes|
    ensures r == AppendColumn(planes, words[..])
  {
    r := planes;
    for bitPosition := 0 to words.Length
      invariant |r| == |planes|
      invariant forall k :: 0 <= k < bitPosition ==> r[k] == planes[k] + [words[k]]
      invariant forall k :: bitPosition <= k < words.Length ==> r[k] == planes[k]
    {
      r := r[bitPosition := r[bitPosition] + [words[bitPosition]]];
    }
  }

  /** Component `i`'s flag `k` sits at bit `i mod 32` of word `i div 32` of
      plane `k`; it is bit `r - 1 - k` of the component's bucket number. */
  lemma PackedComponentBit(planes: seq<seq<U32>>, codes: seq<nat>, r: nat, k: nat, i: nat)
    requires Packed(planes, codes, r)
    requires k < r && i < |codes|
    ensures i / 32 < |planes[k]|
    ensures TestBit(planes[k][i / 32], i % 32) == Flags(codes[i], r)[k]
    ensures TestBit(planes[k][i / 32], i % 32) == TestBit(codes[i], r - 1 - k)
  {
    assert i / 32 < (|codes| + 31) / 32;
    assert WordHolds(planes[k][i / 32], codes, |codes|, r, k, i / 32);
    assert 32 * (i / 32) + i % 32 == i;
  }

  /** The unused high bits of a trailing partial word are clear. */
  lemma PackedPadding(planes: seq<seq<U32>>, codes: seq<nat>, r: nat, k: nat, w: nat, b: nat)
    requires Packed(planes, codes, r)
    requires k < r && w < |planes[k]| && b < 32 && 32 * w + b >= |codes|
    ensures !TestBit(planes[k][w], b)
  {
    assert WordHolds(planes[k][w], codes, |codes|, r, k, w);
  }

  /** When `n` is a multiple of 32 no extra word is pushed. */
  lemma PackedNoExtraWord(planes: seq<seq<U32>>, codes: seq<nat>, r: nat, k: nat)
    requires Packed(planes, codes, r)
    requires k < r && |codes| % 32 == 0
    ensures |planes[k]| == |codes| / 32
  {
  }

  /** Two words below 2^k with the same `k` low bits are equal. */
  lemma {:induction false} SameBits(x: nat, y: nat, k: nat)
    requires x < Pow2(k) && y < Pow2(k)
    requires forall b :: 0 <= b < k ==> TestBit(x, b) == TestBit(y, b)
    ensures x == y
  {
    if k > 0 {
      forall b | 0 <= b < k - 1
        ensures TestBit(x / 2, b) == TestBit(y / 2, b)
      {
        assert TestBit(x, b + 1) == TestBit(y, b + 1);
      }
      SameBits(x / 2, y / 2, k - 1);
      assert TestBit(x, 0) == TestBit(y, 0);
    }
  }

  /** The layout is bit-exact: it determines every word of every plane. */
  lemma PackedUnique(p1: seq<seq<U32>>, p2: seq<seq<U32>>, codes: seq<nat>, r: nat)
    requires Packed(p1, codes, r) && Packed(p2, codes, r)
    ensures p1 == p2
  {
    Pow2Values();
    forall k | 0 <= k < r
      ensures p1[k] == p2[k]
    {
      forall w | 0 <= w < |p1[k]|
        ensures p1[k][w] == p2[k][w]
      {
        assert WordHolds(p1[k][w], codes, |codes|, r, k, w);
        assert WordHolds(p2[k][w], codes, |codes|, r, k, w);
        SameBits(p1[k][w], p2[k][w], 32);
      }
    }
  }

  /** Reading component `i`'s bit from each plane, plane 0 first, and
      decoding gives back its bucket number modulo 2^r. */
  lemma PackedRoundTrip(planes: seq<seq<U32>>, codes: seq<nat>, r: nat, i: nat)
    requires Packed(planes, codes, r) && i < |codes|
    ensures forall k :: 0 <= k < r ==> i / 32 < |planes[k]|
    ensures Code(seq(r, k requires 0 <= k < r && i / 32 < |planes[k]| =>
                   TestBit(planes[k][i / 32], i % 32))) == codes[i] % Pow2(r)
  {
    var read := seq(r, k requires 0 <= k < r && i / 32 < |planes[k]| =>
                  TestBit(planes[k][i / 32], i % 32));
    forall k | 0 <= k < r
      ensures i / 32 < |planes[k]| && read[k] == Flags(codes[i], r)[k]
    {
      PackedComponentBit(planes, codes, r, k, i);
    }
    assert read == Flags(codes[i], r);
    FlagsRoundTrip(codes[i], r);
  }
}
