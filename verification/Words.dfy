/** Machine words and the bit macros of include/tmos/ds/bitmap.h. */
module Words {

  const WORD_SIZE := 64
  const WORD_MAX := 0xffff_ffff_ffff_ffff

  type Word = w: nat | w <= WORD_MAX

  function Pow2(n: nat): (p: nat)
    ensures p >= 1
  {
    if n == 0 then 1 else 2 * Pow2(n - 1)
  }

  lemma Pow2Plus16(n: nat)
    ensures Pow2(n + 16) == 0x1_0000 * Pow2(n)
  {
    assert Pow2(n + 2) == 4 * Pow2(n);
    assert Pow2(n + 4) == 16 * Pow2(n);
    assert Pow2(n + 6) == 64 * Pow2(n);
    assert Pow2(n + 8) == 256 * Pow2(n);
    assert Pow2(n + 10) == 1024 * Pow2(n);
    assert Pow2(n + 12) == 4096 * Pow2(n);
    assert Pow2(n + 14) == 16384 * Pow2(n);
  }

  lemma WordMaxIsFull(n: nat)
    requires n == WORD_SIZE
    ensures WORD_MAX == Pow2(n) - 1
  {
    Pow2Plus16(n - 16);
    Pow2Plus16(n - 32);
    Pow2Plus16(n - 48);
    Pow2Plus16(n - 64);
    assert Pow2(n - 64) == 1;
  }

  /** (w & (1 << j)) != 0 */
  predicate Bit(w: nat, j: nat) {
    if j == 0 then w % 2 == 1 else Bit(w / 2, j - 1)
  }

  /** w | (1 << j) */
  function WithBit(w: nat, j: nat): nat {
    if j == 0 then w / 2 * 2 + 1 else w % 2 + 2 * WithBit(w / 2, j - 1)
  }

  /** w & ~(1 << j) */
  function WithoutBit(w: nat, j: nat): nat {
    if j == 0 then w / 2 * 2 else w % 2 + 2 * WithoutBit(w / 2, j - 1)
  }

  lemma {:induction false} BitOfWith(w: nat, j: nat, k: nat)
    ensures Bit(WithBit(w, j), k) <==> k == j || Bit(w, k)
  {
    if j > 0 && k > 0 {
      BitOfWith(w / 2, j - 1, k - 1);
    }
  }

  lemma {:induction false} BitOfWithout(w: nat, j: nat, k: nat)
    ensures Bit(WithoutBit(w, j), k) <==> k != j && Bit(w, k)
  {
    if j > 0 && k > 0 {
      BitOfWithout(w / 2, j - 1, k - 1);
    }
  }

  lemma {:induction false} WithBitFits(w: nat, j: nat, n: nat)
    requires w < Pow2(n) && j < n
    ensures WithBit(w, j) < Pow2(n)
    ensures WithoutBit(w, j) <= w
  {
    if j > 0 {
      WithBitFits(w / 2, j - 1, n - 1);
    }
  }

  /** Bits 0 to n-1 all equal b. */
  predicate AllBits(w: nat, n: nat, b: bool) {
    n == 0 || ((w % 2 == 1) == b && AllBits(w / 2, n - 1, b))
  }

  lemma {:induction false} AllBitsBit(w: nat, n: nat, b: bool, j: nat)
    requires AllBits(w, n, b) && j < n
    ensures Bit(w, j) == b
  {
    if j > 0 {
      AllBitsBit(w / 2, n - 1, b, j - 1);
    }
  }

  /** The first bit of a word that differs from b. */
  lemma {:induction false} SomeBit(w: nat, n: nat, b: bool) returns (j: nat)
    requires !AllBits(w, n, b)
    ensures j < n && Bit(w, j) != b
  {
    if (w % 2 == 1) != b {
      return 0;
    }
    j := SomeBit(w / 2, n - 1, b);
    j := j + 1;
  }

  /** The largest word is the one with every bit set, and zero the one with none. */
  lemma {:induction false} ExtremeWords(w: nat, n: nat)
    requires w < Pow2(n)
    ensures w == Pow2(n) - 1 <==> AllBits(w, n, true)
    ensures w == 0 <==> AllBits(w, n, false)
  {
    if n > 0 {
      ExtremeWords(w / 2, n - 1);
    }
  }

  /** The word whose bits 0 to k-1 are set. */
  lemma {:induction false} LowOnes(k: nat, j: nat)
    ensures Bit(Pow2(k) - 1, j) <==> j < k
    ensures j == k ==> WithBit(Pow2(k) - 1, j) == Pow2(k + 1) - 1
  {
    if k > 0 {
      assert Pow2(k) - 1 == 2 * (Pow2(k - 1) - 1) + 1;
      if j > 0 {
        LowOnes(k - 1, j - 1);
      }
    } else if j > 0 {
      LowOnes(0, j - 1);
    }
  }

  /** The word of n bits whose bits k to n-1 are set. */
  lemma {:induction false} HighOnes(n: nat, k: nat)
    requires k < n
    ensures Pow2(n) >= Pow2(k + 1) == 2 * Pow2(k)
    ensures Bit(Pow2(n) - Pow2(k), k)
    ensures WithoutBit(Pow2(n) - Pow2(k), k) == Pow2(n) - Pow2(k + 1)
  {
    if k > 0 {
      HighOnes(n - 1, k - 1);
      assert Pow2(n) - Pow2(k) == 2 * (Pow2(n - 1) - Pow2(k - 1));
    }
  }

  lemma {:induction false} PowMono(a: nat, b: nat)
    requires a <= b
    ensures Pow2(a) <= Pow2(b)
  {
    if a < b {
      PowMono(a, b - 1);
    }
  }

  // ----- bitmaps -----

  predicate IsBitmap(s: seq<nat>) {
    forall i :: 0 <= i < |s| ==> s[i] <= WORD_MAX
  }

  /** BM_TEST */
  predicate Test(s: seq<nat>, bit: nat) {
    bit / WORD_SIZE < |s| && Bit(s[bit / WORD_SIZE], bit % WORD_SIZE)
  }

  /** BM_SET */
  function Set(s: seq<nat>, bit: nat): seq<nat>
    requires bit / WORD_SIZE < |s|
  {
    s[bit / WORD_SIZE := WithBit(s[bit / WORD_SIZE], bit % WORD_SIZE)]
  }

  /** BM_UNSET */
  function Unset(s: seq<nat>, bit: nat): seq<nat>
    requires bit / WORD_SIZE < |s|
  {
    s[bit / WORD_SIZE := WithoutBit(s[bit / WORD_SIZE], bit % WORD_SIZE)]
  }

  lemma SetTests(s: seq<nat>, bit: nat)
    requires IsBitmap(s) && bit / WORD_SIZE < |s|
    ensures IsBitmap(Set(s, bit)) && IsBitmap(Unset(s, bit))
    ensures forall k: nat :: Test(Set(s, bit), k) <==> k == bit || Test(s, k)
    ensures forall k: nat :: Test(Unset(s, bit), k) <==> k != bit && Test(s, k)
  {
    var w, j := s[bit / WORD_SIZE], bit % WORD_SIZE;
    WordMaxIsFull(WORD_SIZE);
    WithBitFits(w, j, WORD_SIZE);
    forall k: nat
      ensures Test(Set(s, bit), k) <==> k == bit || Test(s, k)
      ensures Test(Unset(s, bit), k) <==> k != bit && Test(s, k)
    {
      if k / WORD_SIZE == bit / WORD_SIZE {
        BitOfWith(w, j, k % WORD_SIZE);
        BitOfWithout(w, j, k % WORD_SIZE);
      }
    }
  }

  /** Word i is full, or empty, exactly when its 64 bits are. */
  lemma WordMeaning(s: seq<nat>, i: nat)
    requires IsBitmap(s) && i < |s|
    ensures s[i] == WORD_MAX <==> forall k: nat | k / WORD_SIZE == i :: Test(s, k)
    ensures s[i] == 0 <==> forall k: nat | k / WORD_SIZE == i :: !Test(s, k)
  {
    WordMaxIsFull(WORD_SIZE);
    ExtremeWords(s[i], WORD_SIZE);
    forall k: nat | k / WORD_SIZE == i
      ensures s[i] == WORD_MAX ==> Test(s, k)
      ensures s[i] == 0 ==> !Test(s, k)
    {
      if s[i] == WORD_MAX { AllBitsBit(s[i], WORD_SIZE, true, k % WORD_SIZE); }
      if s[i] == 0 { AllBitsBit(s[i], WORD_SIZE, false, k % WORD_SIZE); }
    }
    if s[i] != WORD_MAX {
      var j := SomeBit(s[i], WORD_SIZE, true);
      var k := WORD_SIZE * i + j;
      assert k / WORD_SIZE == i && k % WORD_SIZE == j;
      assert !Test(s, k);
    }
    if s[i] != 0 {
      var j := SomeBit(s[i], WORD_SIZE, false);
      var k := WORD_SIZE * i + j;
      assert k / WORD_SIZE == i && k % WORD_SIZE == j;
      assert Test(s, k);
    }
  }

  /** Number of words for n bits: ROUND_UP(n, WORD_SIZE) >> WORD_SIZE_SHIFT. */
  function WordsFor(n: nat): nat {
    (n + (WORD_SIZE - 1)) / WORD_SIZE
  }
}
