/** Bitwise operations on unsigned words, and the set of bit positions a word denotes. */
module Bits {
  import opened Machine

  function Pow2(k: nat): (p: nat)
    ensures p > 0
  {
    if k == 0 then 1 else 2 * Pow2(k - 1)
  }

  lemma Pow2At64()
    ensures Pow2(8) == 0x100 && Pow2(16) == U16_LIMIT && Pow2(32) == U32_LIMIT && Pow2(64) == U64_LIMIT
  {
    assert Pow2(4) == 0x10;
    Pow2Sum(4, 4);
    Pow2Sum(8, 8);
    Pow2Sum(16, 16);
    Pow2Sum(32, 32);
  }

  lemma {:induction false} Pow2Sum(a: nat, b: nat)
    ensures Pow2(a + b) == Pow2(a) * Pow2(b)
    decreases b
  {
    if b > 0 {
      Pow2Sum(a, b - 1);
      assert Pow2(a) * Pow2(b) == Pow2(a) * (2 * Pow2(b - 1)) == 2 * (Pow2(a) * Pow2(b - 1));
    }
  }

  lemma {:induction false} Pow2Monotone(a: nat, b: nat)
    requires a <= b
    ensures Pow2(a) <= Pow2(b)
    decreases b - a
  {
    if a < b {
      Pow2Monotone(a + 1, b);
    }
  }

  predicate Bit(m: nat, i: nat) {
    if i == 0 then m % 2 == 1 else Bit(m / 2, i - 1)
  }

  /** The positions of the bits set in the 64-bit word `m`. */
  function Members(m: nat): set<nat> {
    set i: nat | i < 64 && Bit(m, i)
  }

  /** Bitwise or. */
  function Or(a: nat, b: nat): nat {
    if a == 0 && b == 0 then 0
    else 2 * Or(a / 2, b / 2) + if a % 2 == 1 || b % 2 == 1 then 1 else 0
  }

  /** Bitwise and. */
  function And(a: nat, b: nat): nat {
    if a == 0 && b == 0 then 0
    else 2 * And(a / 2, b / 2) + if a % 2 == 1 && b % 2 == 1 then 1 else 0
  }

  /** Bitwise exclusive or. */
  function Xor(a: nat, b: nat): nat {
    if a == 0 && b == 0 then 0
    else 2 * Xor(a / 2, b / 2) + if a % 2 != b % 2 then 1 else 0
  }

  /** Bitwise complement within 64 bits. */
  function Not(m: u64): u64 {
    U64_MAX - m
  }

  lemma {:induction false} BitOfOr(a: nat, b: nat, i: nat)
    ensures Bit(Or(a, b), i) <==> Bit(a, i) || Bit(b, i)
  {
    var r := Or(a, b);
    assert r / 2 == Or(a / 2, b / 2) && (r % 2 == 1 <==> a % 2 == 1 || b % 2 == 1);
    if i > 0 {
      BitOfOr(a / 2, b / 2, i - 1);
    }
  }

  lemma {:induction false} BitOfAnd(a: nat, b: nat, i: nat)
    ensures Bit(And(a, b), i) <==> Bit(a, i) && Bit(b, i)
  {
    var r := And(a, b);
    assert r / 2 == And(a / 2, b / 2) && (r % 2 == 1 <==> a % 2 == 1 && b % 2 == 1);
    if i > 0 {
      BitOfAnd(a / 2, b / 2, i - 1);
    }
  }

  lemma {:induction false} BitOfXor(a: nat, b: nat, i: nat)
    ensures Bit(Xor(a, b), i) <==> (Bit(a, i) != Bit(b, i))
  {
    var r := Xor(a, b);
    assert r / 2 == Xor(a / 2, b / 2) && (r % 2 == 1 <==> a % 2 != b % 2);
    if i > 0 {
      BitOfXor(a / 2, b / 2, i - 1);
    }
  }

  lemma {:induction false} BitOfPow2(k: nat, i: nat)
    ensures Bit(Pow2(k), i) <==> i == k
  {
    if i > 0 && k > 0 {
      BitOfPow2(k - 1, i - 1);
    } else if i > 0 {
      BitOfZero(i - 1);
    }
  }

  lemma {:induction false} BitOfZero(i: nat)
    ensures !Bit(0, i)
  {
    if i > 0 {
      BitOfZero(i - 1);
    }
  }

  // The complement within `w` bits.
  lemma {:induction false} BitOfComplement(m: nat, w: nat, i: nat)
    requires m < Pow2(w) && i < w
    ensures Bit(Pow2(w) - 1 - m, i) <==> !Bit(m, i)
  {
    assert (Pow2(w) - 1 - m) / 2 == Pow2(w - 1) - 1 - m / 2;
    if i > 0 {
      BitOfComplement(m / 2, w - 1, i - 1);
    }
  }

  lemma {:induction false} BitOfLow(k: nat, i: nat)
    ensures Bit(Pow2(k) - 1, i) <==> i < k
  {
    if k == 0 {
      BitOfZero(i);
    } else if i > 0 {
      BitOfLow(k - 1, i - 1);
    }
  }

  lemma {:induction false} OrBound(a: nat, b: nat, w: nat)
    requires a < Pow2(w) && b < Pow2(w)
    ensures Or(a, b) < Pow2(w)
  {
    if w > 0 {
      OrBound(a / 2, b / 2, w - 1);
    }
  }

  lemma {:induction false} AndBound(a: nat, b: nat, w: nat)
    requires a < Pow2(w)
    ensures And(a, b) < Pow2(w)
    decreases w + b
  {
    if w > 0 {
      AndBound(a / 2, b / 2, w - 1);
    } else if b > 0 {
      AndBound(0, b / 2, 0);
    }
  }

  lemma {:induction false} XorBound(a: nat, b: nat, w: nat)
    requires a < Pow2(w) && b < Pow2(w)
    ensures Xor(a, b) < Pow2(w)
  {
    if w > 0 {
      XorBound(a / 2, b / 2, w - 1);
    }
  }

  function Or64(a: u64, b: u64): u64 {
    Pow2At64();
    OrBound(a, b, 64);
    Or(a, b)
  }

  function And64(a: u64, b: u64): u64 {
    Pow2At64();
    AndBound(a, b, 64);
    And(a, b)
  }

  function Xor64(a: u64, b: u64): u64 {
    Pow2At64();
    XorBound(a, b, 64);
    Xor(a, b)
  }

  /** The word `1u64 << i`. */
  function Unit(i: nat): (u: u64)
    requires i < 64
  {
    Pow2At64();
    Pow2Monotone(i + 1, 64);
    Pow2(i)
  }

  /** Or-ing words unites the positions they denote. */
  lemma MembersOr(a: u64, b: u64)
    ensures Members(Or64(a, b)) == Members(a) + Members(b)
  {
    forall i: nat | i < 64
      ensures Bit(Or64(a, b), i) <==> Bit(a, i) || Bit(b, i)
    {
      BitOfOr(a, b, i);
    }
  }

  /** `mask |= 1 << i` adds exactly position `i`. */
  lemma MembersSet(m: u64, i: nat)
    requires i < 64
    ensures Members(Or64(m, Unit(i))) == Members(m) + {i}
  {
    MembersOr(m, Unit(i));
    forall j: nat | j < 64
      ensures Bit(Unit(i), j) <==> j == i
    {
      BitOfPow2(i, j);
    }
  }

  /** `mask &= !(1 << i)` removes exactly position `i`. */
  lemma MembersClear(m: u64, i: nat)
    requires i < 64
    ensures Members(And64(m, Not(Unit(i)))) == Members(m) - {i}
  {
    forall j: nat | j < 64
      ensures Bit(And64(m, Not(Unit(i))), j) <==> Bit(m, j) && j != i
    {
      Pow2At64();
      BitOfAnd(m, Not(Unit(i)), j);
      BitOfComplement(Unit(i), 64, j);
      BitOfPow2(i, j);
    }
  }

  /** `mask & (1 << i) != 0` tests position `i`. */
  lemma BitTest(m: u64, i: nat)
    requires i < 64
    ensures And64(m, Unit(i)) != 0 <==> i in Members(m)
  {
    var t := And64(m, Unit(i));
    BitOfAnd(m, Unit(i), i);
    BitOfPow2(i, i);
    BitOfZero(i);
    if i !in Members(m) {
      forall j: nat | j < 64
        ensures !Bit(t, j)
      {
        BitOfAnd(m, Unit(i), j);
        BitOfPow2(i, j);
      }
      NoBits(t);
    }
  }

  lemma NoBits(m: u64)
    requires Members(m) == {}
    ensures m == 0
  {
    forall i: nat | i < 64
      ensures !Bit(m, i)
    {
      assert i !in Members(m);
    }
    Pow2At64();
    NoBitsBelow(m, 64);
  }

  lemma {:induction false} NoBitsBelow(m: nat, w: nat)
    requires m < Pow2(w)
    requires forall i: nat | i < w :: !Bit(m, i)
    ensures m == 0
  {
    if w > 0 {
      assert !Bit(m, 0);
      forall i: nat | i < w - 1
        ensures !Bit(m / 2, i)
      {
        assert !Bit(m, i + 1);
      }
      NoBitsBelow(m / 2, w - 1);
    }
  }

  lemma MembersZero()
    ensures Members(0) == {}
  {
    forall i: nat | i < 64
      ensures !Bit(0, i)
    {
      BitOfZero(i);
    }
  }

  /** `(1 << k) - 1` denotes exactly the positions below `k`. */
  lemma MembersLow(k: nat, i: nat)
    requires k <= 64
    ensures i in Members(Pow2(k) - 1) <==> i < k
  {
    BitOfLow(k, i);
  }

  /** `trailing_zeros` of a nonzero word. */
  function TrailingZeros(m: nat): nat
    requires m != 0
  {
    if m % 2 == 1 then 0 else 1 + TrailingZeros(m / 2)
  }

  /** `trailing_zeros` finds the lowest position the word denotes. */
  lemma TrailingZerosIsLowest(m: u64)
    requires m != 0
    ensures TrailingZeros(m) in Members(m)
    ensures forall j :: j in Members(m) ==> TrailingZeros(m) <= j
  {
    Pow2At64();
    TrailingZerosBelow(m, 64);
  }

  lemma {:induction false} TrailingZerosBelow(m: nat, w: nat)
    requires 0 < m < Pow2(w)
    ensures TrailingZeros(m) < w && Bit(m, TrailingZeros(m))
    ensures forall j: nat :: Bit(m, j) ==> TrailingZeros(m) <= j
  {
    if m % 2 == 0 {
      TrailingZerosBelow(m / 2, w - 1);
      forall j: nat | Bit(m, j)
        ensures TrailingZeros(m) <= j
      {
        assert j > 0 && Bit(m / 2, j - 1);
      }
    }
  }
}
