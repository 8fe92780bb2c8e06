/**
 * Goal subsets (pacman.cc:31-73): a fixed-capacity set of goal indices kept
 * as four unsigned 64-bit words. Index i lives in word i / 64 at bit i % 64.
 * A word is an integer in 0 .. 2^64 - 1; bit k of a word is read by halving
 * it k times. The abstraction used by the rest of the model is Members(b),
 * the set of indices in 0..255 whose bit is on.
 */
module Bitset {

  /** Number of indices a Bits value can hold: four words of 64 bits. */
  const Capacity: int := 256

  /** 2^64, one more than the largest UInt64. */
  const WordLimit: int := 0x1_0000_0000_0000_0000

  type UInt64 = x: int | 0 <= x < WordLimit

  datatype Bits = Bits(w0: UInt64, w1: UInt64, w2: UInt64, w3: UInt64)

  /** The value the default constructor builds: every word zero. */
  const NoBits: Bits := Bits(0, 0, 0, 0)

  predicate InRange(index: int) {
    0 <= index < Capacity
  }

  function Pow2(k: nat): (r: nat)
    ensures r > 0
  {
    if k == 0 then 1 else 2 * Pow2(k - 1)
  }

  /** Bit k of w is on: the value of `w & (1ULL << k) != 0`. */
  predicate WordHas(w: nat, k: nat)
    decreases k
  {
    if k == 0 then w % 2 == 1 else WordHas(w / 2, k - 1)
  }

  function Word(b: Bits, block: int): UInt64
    requires 0 <= block < 4
  {
    if block == 0 then b.w0
    else if block == 1 then b.w1
    else if block == 2 then b.w2
    else b.w3
  }

  /** b with word `block` replaced by w. */
  function WithWord(b: Bits, block: int, w: UInt64): (r: Bits)
    requires 0 <= block < 4
    ensures Word(r, block) == w
    ensures forall p :: 0 <= p < 4 && p != block ==> Word(r, p) == Word(b, p)
  {
    if block == 0 then b.(w0 := w)
    else if block == 1 then b.(w1 := w)
    else if block == 2 then b.(w2 := w)
    else b.(w3 := w)
  }

  /** The word that holds `index` (locate, first half). */
  function Block(index: int): int
    requires InRange(index)
  {
    index / 64
  }

  /** The position of `index` inside its word (locate, second half). */
  function Offset(index: int): nat
    requires InRange(index)
  {
    index % 64
  }

  /** has_bit */
  predicate HasBit(b: Bits, index: int)
    requires InRange(index)
  {
    WordHas(Word(b, Block(index)), Offset(index))
  }

  /** empty: all four words are zero. */
  predicate IsEmpty(b: Bits) {
    b.w0 == 0 && b.w1 == 0 && b.w2 == 0 && b.w3 == 0
  }

  /** The value of `w | (1ULL << bit)`: unchanged when the bit is on, else the mask added. */
  function OrMask(w: UInt64, bit: nat): UInt64
    requires bit < 64
  {
    if WordHas(w, bit) then w
    else
      Pow2Is64();
      AddBitBound(w, bit, 64);
      w + Pow2(bit)
  }

  /**
   * set_bit: switching a bit on ors the mask in; switching it off subtracts
   * the mask, but only when the bit is currently on. Bits is a value type,
   * so the in-place update is the function's new value.
   */
  function SetBit(b: Bits, index: int, on: bool): Bits
    requires InRange(index)
  {
    var block, bit := Block(index), Offset(index);
    var w := Word(b, block);
    if on then WithWord(b, block, OrMask(w, bit))
    else if WordHas(w, bit) then
      BitBelow(w, bit);
      WithWord(b, block, w - Pow2(bit))
    else b
  }

  /** operator<: the first word that differs decides. */
  predicate Less(a: Bits, b: Bits) {
    LessFrom(a, b, 0)
  }

  /** The loop of operator< from word p on. */
  predicate LessFrom(a: Bits, b: Bits, p: int)
    requires 0 <= p <= 4
    decreases 4 - p
  {
    if p == 4 then false
    else if Word(a, p) != Word(b, p) then Word(a, p) < Word(b, p)
    else LessFrom(a, b, p + 1)
  }

  /** The set of goal indices the subset holds. */
  ghost function Members(b: Bits): set<int> {
    set i | 0 <= i < Capacity && HasBit(b, i)
  }

  // ---------------------------------------------------------------------
  // Facts about the bits of one word.

  lemma Pow2Is64()
    ensures Pow2(64) == WordLimit
  {
    assert Pow2(8) == 256;
    Pow2Add(8, 8);
    Pow2Add(16, 16);
    Pow2Add(32, 32);
  }

  lemma {:induction false} Pow2Add(a: nat, b: nat)
    ensures Pow2(a + b) == Pow2(a) * Pow2(b)
    decreases a
  {
    if a > 0 {
      Pow2Add(a - 1, b);
      assert Pow2(a + b) == 2 * Pow2(a - 1 + b);
    }
  }

  /** A word whose bit k is on is at least 2^k. */
  lemma {:induction false} BitBelow(w: nat, k: nat)
    requires WordHas(w, k)
    ensures w >= Pow2(k)
    decreases k
  {
    if k > 0 { BitBelow(w / 2, k - 1); }
  }

  /** Adding 2^k to a word whose bit k is off switches exactly bit k on. */
  lemma {:induction false} AddBit(w: nat, k: nat, j: nat)
    requires !WordHas(w, k)
    ensures WordHas(w + Pow2(k), j) <==> j == k || WordHas(w, j)
    decreases k
  {
    if k == 0 {
      if j > 0 { assert (w + 1) / 2 == w / 2; }
    } else {
      var p := Pow2(k - 1);
      assert (w + 2 * p) % 2 == w % 2;
      assert (w + 2 * p) / 2 == w / 2 + p;
      if j > 0 { AddBit(w / 2, k - 1, j - 1); }
    }
  }

  /** Subtracting 2^k from a word whose bit k is on switches exactly bit k off. */
  lemma {:induction false} SubBit(w: nat, k: nat, j: nat)
    requires WordHas(w, k)
    ensures w >= Pow2(k)
    ensures WordHas(w - Pow2(k), j) <==> j != k && WordHas(w, j)
    decreases k
  {
    BitBelow(w, k);
    if k == 0 {
      if j > 0 { assert (w - 1) / 2 == w / 2; }
    } else {
      var p := Pow2(k - 1);
      BitBelow(w / 2, k - 1);
      assert (w - 2 * p) % 2 == w % 2;
      assert (w - 2 * p) / 2 == w / 2 - p;
      if j > 0 { SubBit(w / 2, k - 1, j - 1); }
    }
  }

  /** Switching an off bit on keeps an n-bit word within n bits. */
  lemma {:induction false} AddBitBound(w: nat, k: nat, n: nat)
    requires k < n && w < Pow2(n) && !WordHas(w, k)
    ensures w + Pow2(k) < Pow2(n)
    decreases k
  {
    if k == 0 {
      assert Pow2(n) == 2 * Pow2(n - 1);
    } else {
      AddBitBound(w / 2, k - 1, n - 1);
    }
  }

  /** A nonzero n-bit word has some bit below n on. */
  lemma {:induction false} NonzeroWord(w: nat, n: nat)
    requires 0 < w < Pow2(n)
    ensures exists j :: 0 <= j < n && WordHas(w, j)
    decreases n
  {
    if w % 2 == 1 {
      assert WordHas(w, 0);
    } else {
      NonzeroWord(w / 2, n - 1);
      var j :| 0 <= j < n - 1 && WordHas(w / 2, j);
      assert WordHas(w, j + 1);
    }
  }

  /** Two n-bit words with the same bits are equal. */
  lemma {:induction false} WordExtensional(w: nat, v: nat, n: nat)
    requires w < Pow2(n) && v < Pow2(n)
    requires forall j :: 0 <= j < n ==> WordHas(w, j) == WordHas(v, j)
    ensures w == v
    decreases n
  {
    if n > 0 {
      assert WordHas(w, 0) == WordHas(v, 0);
      forall j | 0 <= j < n - 1 ensures WordHas(w / 2, j) == WordHas(v / 2, j) {
        assert WordHas(w, j + 1) == WordHas(v, j + 1);
      }
      WordExtensional(w / 2, v / 2, n - 1);
    }
  }

  lemma {:induction false} ZeroWord(j: nat)
    ensures !WordHas(0, j)
    decreases j
  {
    if j > 0 { ZeroWord(j - 1); }
  }

  /** Index 64 * block + j lies in word `block` at position j. */
  lemma IndexOf(block: int, j: int)
    requires 0 <= block < 4 && 0 <= j < 64
    ensures InRange(64 * block + j)
    ensures Block(64 * block + j) == block && Offset(64 * block + j) == j
  {}

  // ---------------------------------------------------------------------
  // The subset operations against Members.

  /**
   * set_bit(index, on) makes has_bit(index) == on and leaves every other
   * index as it was.
   */
  lemma SetBitEffect(b: Bits, index: int, on: bool, j: int)
    requires InRange(index) && InRange(j)
    ensures HasBit(SetBit(b, index, on), j) == if j == index then on else HasBit(b, j)
  {
    var block, k := Block(index), Offset(index);
    var w := Word(b, block);
    if Block(j) == block {
      if on {
        if !WordHas(w, k) { AddBit(w, k, Offset(j)); }
      } else if WordHas(w, k) {
        SubBit(w, k, Offset(j));
      }
    }
  }

  lemma SetBitMembers(b: Bits, index: int, on: bool)
    requires InRange(index)
    ensures Members(SetBit(b, index, on)) == if on then Members(b) + {index} else Members(b) - {index}
  {
    forall j | InRange(j) {
      SetBitEffect(b, index, on, j);
    }
  }

  /** empty() holds exactly when no index in 0..255 is on. */
  lemma EmptyIffNoMembers(b: Bits)
    ensures IsEmpty(b) <==> Members(b) == {}
  {
    if IsEmpty(b) {
      forall i | InRange(i) ensures !HasBit(b, i) {
        ZeroWord(Offset(i));
      }
    } else {
      var p := if b.w0 != 0 then 0 else if b.w1 != 0 then 1 else if b.w2 != 0 then 2 else 3;
      Pow2Is64();
      NonzeroWord(Word(b, p), 64);
      var j :| 0 <= j < 64 && WordHas(Word(b, p), j);
      IndexOf(p, j);
      assert 64 * p + j in Members(b);
    }
  }

  lemma WordOfMembers(a: Bits, b: Bits, p: int)
    requires 0 <= p < 4 && Members(a) == Members(b)
    ensures Word(a, p) == Word(b, p)
  {
    forall j | 0 <= j < 64 ensures WordHas(Word(a, p), j) == WordHas(Word(b, p), j) {
      IndexOf(p, j);
      var i := 64 * p + j;
      assert HasBit(a, i) <==> i in Members(a);
      assert HasBit(b, i) <==> i in Members(b);
    }
    Pow2Is64();
    WordExtensional(Word(a, p), Word(b, p), 64);
  }

  /** Two subsets with the same members are the same value. */
  lemma MembersInjective(a: Bits, b: Bits)
    requires Members(a) == Members(b)
    ensures a == b
  {
    WordOfMembers(a, b, 0);
    WordOfMembers(a, b, 1);
    WordOfMembers(a, b, 2);
    WordOfMembers(a, b, 3);
  }

  // ---------------------------------------------------------------------
  // operator< is a strict total order.

  lemma {:induction false} LessFromIrreflexive(a: Bits, p: int)
    requires 0 <= p <= 4
    ensures !LessFrom(a, a, p)
    decreases 4 - p
  {
    if p < 4 { LessFromIrreflexive(a, p + 1); }
  }

  lemma {:induction false} LessFromAsymmetric(a: Bits, b: Bits, p: int)
    requires 0 <= p <= 4 && LessFrom(a, b, p)
    ensures !LessFrom(b, a, p)
    decreases 4 - p
  {
    if p < 4 && Word(a, p) == Word(b, p) { LessFromAsymmetric(a, b, p + 1); }
  }

  lemma {:induction false} LessFromTransitive(a: Bits, b: Bits, c: Bits, p: int)
    requires 0 <= p <= 4 && LessFrom(a, b, p) && LessFrom(b, c, p)
    ensures LessFrom(a, c, p)
    decreases 4 - p
  {
    if p < 4 && Word(a, p) == Word(b, p) && Word(b, p) == Word(c, p) {
      LessFromTransitive(a, b, c, p + 1);
    }
  }

  lemma {:induction false} LessFromTotal(a: Bits, b: Bits, p: int)
    requires 0 <= p <= 4
    requires exists q :: p <= q < 4 && Word(a, q) != Word(b, q)
    ensures LessFrom(a, b, p) || LessFrom(b, a, p)
    decreases 4 - p
  {
    if Word(a, p) == Word(b, p) { LessFromTotal(a, b, p + 1); }
  }

  lemma LessIrreflexive(a: Bits)
    ensures !Less(a, a)
  {
    LessFromIrreflexive(a, 0);
  }

  lemma LessTransitive(a: Bits, b: Bits, c: Bits)
    requires Less(a, b) && Less(b, c)
    ensures Less(a, c)
  {
    LessFromTransitive(a, b, c, 0);
  }

  /** For a != b exactly one of a < b and b < a holds. */
  lemma LessTrichotomy(a: Bits, b: Bits)
    requires a != b
    ensures Less(a, b) != Less(b, a)
  {
    assert exists q :: 0 <= q < 4 && Word(a, q) != Word(b, q) by {
      if Word(a, 0) == Word(b, 0) && Word(a, 1) == Word(b, 1) && Word(a, 2) == Word(b, 2) {
        assert Word(a, 3) != Word(b, 3);
      }
    }
    LessFromTotal(a, b, 0);
    if Less(a, b) { LessFromAsymmetric(a, b, 0); }
  }

}
