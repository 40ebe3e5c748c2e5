/** The table-driven population count (org/src/main.rs:2-60): the nibble
    table `x_function`, the 16-bit nibble sum, the 65536-entry lookup table
    and the 32-bit lookup that adds the counts of the two halves. */
module Popcount {
  import opened Bits

  /** Entries in the table: one per 16-bit pattern. */
  const TABLE_SIZE: nat := 0x1_0000

  /** `x_function`: the number of set bits of a nibble, and 0 for any value
      above 15. */
  function NibbleCount(value: U32): (r: nat)
    ensures value <= 15 ==> r == Popcount(value)
    ensures value > 15 ==> r == 0
  {
    match value
    case 0 => 0
    case 1 => 1
    case 2 => 1
    case 3 => 2
    case 4 => 1
    case 5 => 2
    case 6 => 2
    case 7 => 3
    case 8 => 1
    case 9 => 2
    case 10 => 2
    case 11 => 3
    case 12 => 2
    case 13 => 3
    case 14 => 3
    case 15 => 4
    case _ => 0
  }

  /** `shift_and_accumulate_u16`: the counts of the four nibbles of a 16-bit
      value, added into an accumulator one by one; the total is its
      popcount. */
  method ShiftAndAccumulateU16(value: U16) returns (result: nat)
    ensures result == Popcount(value)
    ensures result <= 16
  {
    NibbleDecomposition(value);
    NibbleMasks(value);
    result := 0;
    result := result + NibbleCount(And(15, Shr(value, 0)));
    result := result + NibbleCount(And(15, Shr(value, 4)));
    result := result + NibbleCount(And(15, Shr(value, 8)));
    result := result + NibbleCount(And(15, Shr(value, 12)));
  }

  /** Masking the word shifted right by `s` with 15 gives its nibble at `s`,
      whose count is the popcount of that nibble. */
  lemma NibbleAt(v: nat, s: nat)
    ensures And(15, Shr(v, s)) == Shr(v, s) % 16
  {
    Pow2Values();
    AndComm(15, Shr(v, s));
    AndLowMask(Shr(v, s), 4);
  }

  /** The popcount of a value is the popcount of its nibble at bit `s` plus
      that of the value shifted right by `s + 4`. */
  lemma NibbleStep(v: nat, s: nat)
    ensures Popcount(Shr(v, s)) == Popcount(Shr(v, s) % 16) + Popcount(Shr(v, s + 4))
  {
    Pow2Values();
    PopcountSplit(Shr(v, s), 4);
    ShrShr(v, s, 4);
  }

  /** The popcount of a 16-bit value is the sum of the popcounts of its
      four nibbles. */
  lemma NibbleDecomposition(v: U16)
    ensures Popcount(v) == Popcount(Shr(v, 0) % 16) + Popcount(Shr(v, 4) % 16)
                         + Popcount(Shr(v, 8) % 16) + Popcount(Shr(v, 12) % 16)
    ensures Popcount(v) <= 16
  {
    SixteenBits(v);
    NibbleStep(v, 0);
    NibbleStep(v, 4);
    NibbleStep(v, 8);
    NibbleStep(v, 12);
    SumChain(Popcount(Shr(v, 0)), Popcount(Shr(v, 4)), Popcount(Shr(v, 8)), Popcount(Shr(v, 12)),
             Popcount(Shr(v, 16)), Popcount(Shr(v, 0) % 16), Popcount(Shr(v, 4) % 16),
             Popcount(Shr(v, 8) % 16), Popcount(Shr(v, 12) % 16));
  }

  /** A 16-bit value has at most 16 set bits and nothing above bit 15. */
  lemma SixteenBits(v: U16)
    ensures Popcount(v) <= 16 && Shr(v, 16) == 0
  {
    Pow2Values();
    PopcountBound(v, 16);
    ShrIsDiv(v, 16);
  }

  lemma SumChain(p0: nat, p4: nat, p8: nat, p12: nat, p16: nat, n0: nat, n1: nat, n2: nat, n3: nat)
    requires p0 == n0 + p4 && p4 == n1 + p8 && p8 == n2 + p12 && p12 == n3 + p16 && p16 == 0
    ensures p0 == n0 + n1 + n2 + n3
  {
  }

  /** Masking with 15 after each of the four shifts keeps just that nibble. */
  lemma NibbleMasks(v: U16)
    ensures And(15, Shr(v, 0)) == Shr(v, 0) % 16 && And(15, Shr(v, 4)) == Shr(v, 4) % 16
    ensures And(15, Shr(v, 8)) == Shr(v, 8) % 16 && And(15, Shr(v, 12)) == Shr(v, 12) % 16
  {
    NibbleAt(v, 0);
    NibbleAt(v, 4);
    NibbleAt(v, 8);
    NibbleAt(v, 12);
  }

  /** The process-wide lookup table `U16_LOOKUP_TABLE`: zero-filled until
      `Initialize` (`initialize_u16_lookup_table`) stores the popcount of
      every 16-bit pattern. */
  class PopcountTable {
    var entries: array<nat>
    /** The indices written by the latest `Initialize`, in the order written. */
    ghost var written: seq<nat>

    /** The table has one `u32` slot per 16-bit pattern; every slot holds
        either its initial 0 or a 16-bit popcount, so the sum of two slots
        never overflows a `u32`. */
    ghost predicate Valid()
      reads this, entries
    {
      entries.Length == TABLE_SIZE && forall i :: 0 <= i < TABLE_SIZE ==> entries[i] <= 16
    }

    /** Every entry holds the popcount of its index. */
    ghost predicate Ready()
      reads this, entries
      requires Valid()
    {
      forall i {:trigger entries[i]} :: 0 <= i < TABLE_SIZE ==> entries[i] == Popcount(i)
    }

    /** The static array before initialisation: all zeros. */
    constructor ()
      ensures Valid() && fresh(entries) && written == []
      ensures forall i :: 0 <= i < TABLE_SIZE ==> entries[i] == 0
    {
      entries := new nat[TABLE_SIZE](_ => 0);
      written := [];
    }

    /** `initialize_u16_lookup_table`: one pass over the indices in ascending
        order, each written once with its nibble-sum popcount. */
    method Initialize()
      requires Valid()
      modifies entries, this`written
      ensures Valid() && Ready()
      ensures written == Ascending(TABLE_SIZE)
    {
      written := [];
      for i := 0 to TABLE_SIZE
        invariant entries.Length == TABLE_SIZE
        invariant forall j :: 0 <= j < TABLE_SIZE ==> entries[j] <= 16
        invariant forall j {:trigger entries[j]} :: 0 <= j < i ==> entries[j] == Popcount(j)
        invariant written == Ascending(i)
      {
        var count := ShiftAndAccumulateU16(i);
        entries[i] := count;
        written := written + [i];
      }
    }

    /** `shift_and_accumulate`: the table entries of the high and the low
        half of a 32-bit word, added. With the table initialised this is the
        word's popcount. */
    function ShiftAndAccumulate(value: U32): (r: nat)
      reads this, entries
      requires Valid()
      ensures r <= 32
      ensures Ready() ==> r == Popcount(value)
    {
      var high := Shr(value, 16);
      var low := And(value, 0xFFFF);
      HalvesOfWord(value);
      entries[high] + entries[low]
    }
  }

  /** The indices `0, 1, …, n - 1` in ascending order. */
  function Ascending(n: nat): (r: seq<nat>)
    ensures |r| == n && forall k :: 0 <= k < n ==> r[k] == k
  {
    if n == 0 then [] else Ascending(n - 1) + [n - 1]
  }

  /** The two 16-bit halves of a word index the table, and their popcounts
      add up to the popcount of the word. */
  lemma HalvesOfWord(v: U32)
    ensures Shr(v, 16) < TABLE_SIZE && And(v, 0xFFFF) < TABLE_SIZE
    ensures Popcount(v) == Popcount(Shr(v, 16)) + Popcount(And(v, 0xFFFF))
  {
    Pow2Values();
    AndLowMask(v, 16);
    PopcountSplit(v, 16);
    ShrIsDiv(v, 16);
  }
}
