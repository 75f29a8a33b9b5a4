/**
 Activity bitmaps: one bit per tick in 64-bit words, and the scans for the lowest and highest.
 Words are unsigned numbers; the bitwise operators are given digit by digit.
 */
module Bitmap {
  import opened Types

  const WORD := 64

  function Pow2(k: nat): (p: nat)
    ensures p > 0
  {
    if k == 0 then 1 else 2 * Pow2(k - 1)
  }

  predicate Bit(w: nat, k: nat) {
    if k == 0 then w % 2 == 1 else Bit(w / 2, k - 1)
  }

  /** a | b. */
  function Or(a: nat, b: nat): nat
    decreases a + b
  {
    if a == 0 && b == 0 then 0
    else 2 * Or(a / 2, b / 2) + (if a % 2 == 1 || b % 2 == 1 then 1 else 0)
  }

  /** a & ~b. */
  function AndNot(a: nat, b: nat): nat
    decreases a
  {
    if a == 0 then 0
    else 2 * AndNot(a / 2, b / 2) + (if a % 2 == 1 && b % 2 == 0 then 1 else 0)
  }

  lemma {:induction false} ZeroHasNoBit(k: nat)
    ensures !Bit(0, k)
  {
    if k > 0 { ZeroHasNoBit(k - 1); }
  }

  lemma {:induction false} OrBit(a: nat, b: nat, k: nat)
    ensures Bit(Or(a, b), k) <==> Bit(a, k) || Bit(b, k)
    decreases k
  {
    if a == 0 && b == 0 { ZeroHasNoBit(k); }
    else if k > 0 { OrBit(a / 2, b / 2, k - 1); }
  }

  lemma {:induction false} AndNotBit(a: nat, b: nat, k: nat)
    ensures Bit(AndNot(a, b), k) <==> Bit(a, k) && !Bit(b, k)
    decreases k
  {
    if a == 0 { ZeroHasNoBit(k); }
    else if k > 0 { AndNotBit(a / 2, b / 2, k - 1); }
  }

  lemma {:induction false} Pow2Bit(k: nat, j: nat)
    ensures Bit(Pow2(k), j) <==> j == k
    decreases k
  {
    if k == 0 {
      if j > 0 { ZeroHasNoBit(j - 1); }
    } else if j > 0 {
      assert Pow2(k) / 2 == Pow2(k - 1);
      Pow2Bit(k - 1, j - 1);
    }
  }

  lemma {:induction false} OrFits(a: nat, b: nat, n: nat)
    requires a < Pow2(n) && b < Pow2(n)
    ensures Or(a, b) < Pow2(n)
    decreases n
  {
    if n > 0 { OrFits(a / 2, b / 2, n - 1); }
  }

  lemma {:induction false} AndNotFits(a: nat, b: nat)
    ensures AndNot(a, b) <= a
    decreases a
  {
    if a > 0 { AndNotFits(a / 2, b / 2); }
  }

  lemma {:induction false} Pow2Order(k: nat, n: nat)
    requires k < n
    ensures Pow2(k) < Pow2(n)
    decreases n
  {
    if k < n - 1 { Pow2Order(k, n - 1); }
  }

  lemma {:induction false} Pow2Four(k: nat)
    ensures Pow2(k + 4) == 16 * Pow2(k)
  {
    assert Pow2(k + 2) == 4 * Pow2(k);
  }

  lemma {:induction false} Pow2Sixteen(k: nat)
    ensures Pow2(k + 16) == 0x1_0000 * Pow2(k)
  {
    hide Pow2;
    Pow2Four(k); Pow2Four(k + 4); Pow2Four(k + 8); Pow2Four(k + 12);
  }

  lemma {:induction false} WordSize()
    ensures Pow2(64) == TWO64
  {
    Pow2Sixteen(0); Pow2Sixteen(16); Pow2Sixteen(32); Pow2Sixteen(48);
  }

  /** A word below 2^n is zero exactly when its n low bits are. */
  lemma {:induction false} ZeroWord(w: nat, n: nat)
    requires w < Pow2(n) && forall k | 0 <= k < n :: !Bit(w, k)
    ensures w == 0
    decreases n
  {
    if n > 0 {
      assert !Bit(w, 0);
      forall k | 0 <= k < n - 1 ensures !Bit(w / 2, k) { assert !Bit(w, k + 1); }
      ZeroWord(w / 2, n - 1);
    }
  }

  /** std::countr_zero. */
  function CountrZero(w: u64, k: nat := 0): (r: nat)
    requires k <= WORD && forall j | 0 <= j < k :: !Bit(w, j)
    ensures r <= WORD && (forall j | 0 <= j < r :: !Bit(w, j)) && (r < WORD ==> Bit(w, r))
    decreases WORD - k
  {
    if k == WORD || Bit(w, k) then k else CountrZero(w, k + 1)
  }

  /** std::countl_zero. */
  function CountlZero(w: u64, k: nat := 0): (r: nat)
    requires k <= WORD && forall j | WORD - k <= j < WORD :: !Bit(w, j)
    ensures r <= WORD && (forall j | WORD - r <= j < WORD :: !Bit(w, j)) && (r < WORD ==> Bit(w, WORD - 1 - r))
    decreases WORD - k
  {
    if k == WORD || Bit(w, WORD - 1 - k) then k else CountlZero(w, k + 1)
  }

  // ---- bitmaps -------------------------------------------------------------------------------

  /** Bit i of a bitmap. */
  predicate Active(bits: seq<u64>, i: nat)
    requires i / WORD < |bits|
  {
    Bit(bits[i / WORD], i % WORD)
  }

  function SetWord(w: u64, k: nat): (r: u64)
    requires k < WORD
    ensures forall j: nat :: Bit(r, j) <==> j == k || Bit(w, j)
  {
    WordSize();
    Pow2Order(k, 64);
    OrFits(w, Pow2(k), 64);
    assert forall j: nat :: Bit(Or(w, Pow2(k)), j) <==> j == k || Bit(w, j) by {
      forall j: nat ensures Bit(Or(w, Pow2(k)), j) <==> j == k || Bit(w, j) {
        OrBit(w, Pow2(k), j);
        Pow2Bit(k, j);
      }
    }
    Or(w, Pow2(k))
  }

  function ClearWord(w: u64, k: nat): (r: u64)
    requires k < WORD
    ensures forall j: nat :: Bit(r, j) <==> j != k && Bit(w, j)
  {
    AndNotFits(w, Pow2(k));
    assert forall j: nat :: Bit(AndNot(w, Pow2(k)), j) <==> j != k && Bit(w, j) by {
      forall j: nat ensures Bit(AndNot(w, Pow2(k)), j) <==> j != k && Bit(w, j) {
        AndNotBit(w, Pow2(k), j);
        Pow2Bit(k, j);
      }
    }
    AndNot(w, Pow2(k))
  }

  /** bits[i / 64] |= 1 << (i % 64). */
  lemma {:induction false} SetActiveMeans(bits: seq<u64>, i: nat, j: nat)
    requires i / WORD < |bits| && j / WORD < |bits|
    ensures Active(bits[i / WORD := SetWord(bits[i / WORD], i % WORD)], j) <==> j == i || Active(bits, j)
  {}

  /** bits[i / 64] &= ~(1 << (i % 64)). */
  lemma {:induction false} ClearActiveMeans(bits: seq<u64>, i: nat, j: nat)
    requires i / WORD < |bits| && j / WORD < |bits|
    ensures Active(bits[i / WORD := ClearWord(bits[i / WORD], i % WORD)], j) <==> j != i && Active(bits, j)
  {}

  lemma {:induction false} SplitIndex(w: nat, k: nat)
    requires k < WORD
    ensures (WORD * w + k) / WORD == w && (WORD * w + k) % WORD == k
  {}

  /** best_index on asks: the lowest active bit. */
  method Lowest(bits: array<u64>) returns (r: Option<nat>)
    ensures r.None? ==> forall i: nat | i / WORD < bits.Length :: !Active(bits[..], i)
    ensures r.Some? ==> && r.value / WORD < bits.Length && Active(bits[..], r.value)
                        && forall i: nat | i < r.value && i / WORD < bits.Length :: !Active(bits[..], i)
  {
    hide Active, Bit;
    var word := 0;
    while word < bits.Length
      invariant 0 <= word <= bits.Length
      invariant forall i: nat | i / WORD < word :: !Active(bits[..], i)
    {
      if bits[word] != 0 {
        var k := CountrZero(bits[word]);
        LowestInWord(bits[..], word);
        return Some(word * WORD + k);
      }
      ZeroWordInactive(bits[..], word);
      word := word + 1;
    }
    return None;
  }

  /** best_index on bids: the highest active bit. */
  method Highest(bits: array<u64>) returns (r: Option<nat>)
    ensures r.None? ==> forall i: nat | i / WORD < bits.Length :: !Active(bits[..], i)
    ensures r.Some? ==> && r.value / WORD < bits.Length && Active(bits[..], r.value)
                        && forall i: nat | i > r.value && i / WORD < bits.Length :: !Active(bits[..], i)
  {
    hide Active, Bit;
    var word := bits.Length;
    while word > 0
      invariant 0 <= word <= bits.Length
      invariant forall i: nat | word <= i / WORD < bits.Length :: !Active(bits[..], i)
    {
      if bits[word - 1] != 0 {
        var k := CountlZero(bits[word - 1]);
        HighestInWord(bits[..], word - 1);
        return Some((word - 1) * WORD + (WORD - 1 - k));
      }
      ZeroWordInactive(bits[..], word - 1);
      word := word - 1;
    }
    return None;
  }

  lemma {:induction false} ZeroWordInactive(bits: seq<u64>, word: nat)
    requires word < |bits| && bits[word] == 0
    ensures forall i: nat | i / WORD == word :: !Active(bits, i)
  {
    forall i: nat | i / WORD == word ensures !Active(bits, i) { ZeroHasNoBit(i % WORD); }
  }

  lemma {:induction false} LowestInWord(bits: seq<u64>, word: nat)
    requires word < |bits| && bits[word] != 0
    ensures var r := word * WORD + CountrZero(bits[word]);
            && r / WORD == word && Active(bits, r)
            && forall i: nat | i / WORD == word && i < r :: !Active(bits, i)
  {
    var k := CountrZero(bits[word]);
    WordSize();
    if k == WORD { ZeroWord(bits[word], WORD); }
    SplitIndex(word, k);
  }

  lemma {:induction false} HighestInWord(bits: seq<u64>, word: nat)
    requires word < |bits| && bits[word] != 0
    ensures var r := word * WORD + (WORD - 1 - CountlZero(bits[word]));
            && r / WORD == word && Active(bits, r)
            && forall i: nat | i / WORD == word && i > r :: !Active(bits, i)
  {
    var k := CountlZero(bits[word]);
    WordSize();
    if k == WORD { ZeroWord(bits[word], WORD); }
    SplitIndex(word, WORD - 1 - k);
  }
}
