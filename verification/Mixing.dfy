/** The 64-bit finaliser behind every sealed root, and folding words through it. */
module Mixing {
  import opened Machine
  import opened Bits

  const MULTIPLIER_A: u64 := 0xbf58_476d_1ce4_e5b9
  const MULTIPLIER_B: u64 := 0x94d0_49bb_1331_11eb
  const MULTIPLIER_G: u64 := 0x9e37_79b9_7f4a_7c15

  // Their inverses modulo 2^64.
  const INVERSE_A: u64 := 0x96de_1b17_3f11_9089
  const INVERSE_B: u64 := 0x3196_42b2_d24d_8ec3
  const INVERSE_G: u64 := 0xf1de_83e1_9937_733d

  /** `x >> k` */
  function Shr(x: nat, k: nat): (y: nat)
    ensures y <= x
  {
    if k == 0 then x else Shr(x / 2, k - 1)
  }

  /** `x ^ (x >> k)` */
  function XorShift(x: u64, k: nat): u64 {
    Xor64(x, Shr(x, k))
  }

  /** `a.wrapping_mul(b)` */
  function WrappingMul(a: u64, b: u64): u64 {
    (a * b) % U64_LIMIT
  }

  function Avalanche(value: u64): u64 {
    XorShift(WrappingMul(XorShift(WrappingMul(XorShift(value, 30), MULTIPLIER_A), 27), MULTIPLIER_B), 31)
  }

  /** Folds one word into the state. The service calculus calls the same function `mix`. */
  function Absorb(state: u64, word: u64): u64 {
    Avalanche(Xor64(state, WrappingMul(word, MULTIPLIER_G)))
  }

  /** Feeding a sequence of words to a step function, first to last. */
  function FoldWith(step: (u64, u64) -> u64, state: u64, words: seq<u64>): u64
    decreases |words|
  {
    if words == [] then state else FoldWith(step, step(state, words[0]), words[1..])
  }

  /** Absorbing a sequence of words, first to last. */
  function Fold(state: u64, words: seq<u64>): u64 {
    FoldWith(Absorb, state, words)
  }

  // ----- exclusive or -----

  lemma {:induction false} XorSelf(a: nat)
    ensures Xor(a, a) == 0
  {
    if a > 0 {
      XorSelf(a / 2);
    }
  }

  lemma {:induction false} XorZero(a: nat)
    ensures Xor(a, 0) == a
  {
    if a > 0 {
      XorZero(a / 2);
    }
  }

  lemma {:induction false} XorCommutes(a: nat, b: nat)
    ensures Xor(a, b) == Xor(b, a)
  {
    if a > 0 || b > 0 {
      XorCommutes(a / 2, b / 2);
    }
  }

  lemma XorParts(a: nat, b: nat)
    ensures Xor(a, b) / 2 == Xor(a / 2, b / 2)
    ensures Xor(a, b) % 2 == 1 <==> a % 2 != b % 2
  {
  }

  lemma {:induction false} XorAssociates(a: nat, b: nat, c: nat)
    ensures Xor(Xor(a, b), c) == Xor(a, Xor(b, c))
    decreases a + b + c
  {
    if a > 0 || b > 0 || c > 0 {
      XorAssociates(a / 2, b / 2, c / 2);
      XorParts(a, b);
      XorParts(b, c);
      XorParts(Xor(a, b), c);
      XorParts(a, Xor(b, c));
      EqualByHalves(Xor(Xor(a, b), c), Xor(a, Xor(b, c)));
    }
  }

  lemma EqualByHalves(x: nat, y: nat)
    requires x / 2 == y / 2 && (x % 2 == 1 <==> y % 2 == 1)
    ensures x == y
  {
  }

  /** Equal words cancel. */
  lemma XorCancels(a: nat, b: nat)
    ensures Xor(Xor(a, b), b) == a
  {
    XorAssociates(a, b, b);
    XorSelf(b);
    XorZero(a);
  }

  // ----- shifts -----

  lemma {:induction false} ShrOfXor(a: nat, b: nat, k: nat)
    ensures Shr(Xor(a, b), k) == Xor(Shr(a, k), Shr(b, k))
  {
    if k > 0 {
      XorParts(a, b);
      ShrOfXor(a / 2, b / 2, k - 1);
    }
  }

  lemma {:induction false} ShrTwice(x: nat, j: nat, k: nat)
    ensures Shr(Shr(x, j), k) == Shr(x, j + k)
  {
    if j > 0 {
      ShrTwice(x / 2, j - 1, k);
    }
  }

  lemma {:induction false} ShrAll(x: nat, k: nat)
    requires x < Pow2(k)
    ensures Shr(x, k) == 0
  {
    if k > 0 {
      ShrAll(x / 2, k - 1);
    }
  }

  // ----- each step of the finaliser has an inverse -----

  /** Undoes `XorShift` for shifts of at least 22, which leave nothing after three applications. */
  function UnXorShift(y: u64, k: nat): u64 {
    Xor64(Xor64(y, Shr(y, k)), Shr(y, 2 * k))
  }

  lemma ThirdShiftVanishes(x: u64, k: nat)
    requires 3 * k >= 64
    ensures Shr(Shr(x, 2 * k), k) == 0 && Shr(Shr(x, k), 2 * k) == 0
  {
    ShrTwice(x, 2 * k, k);
    ShrTwice(x, k, 2 * k);
    Pow2At64();
    Pow2Monotone(64, 3 * k);
    ShrAll(x, 3 * k);
  }

  lemma XorShiftUndone(x: u64, k: nat)
    requires 3 * k >= 64
    ensures UnXorShift(XorShift(x, k), k) == x
  {
    var x1, x2 := Shr(x, k), Shr(x, 2 * k);
    var y := Xor(x, x1);
    ShrOfXor(x, x1, k);
    ShrTwice(x, k, k);
    assert Shr(y, k) == Xor(x1, x2);
    ShrOfXor(x, x1, 2 * k);
    ThirdShiftVanishes(x, k);
    XorZero(x2);
    assert Shr(y, 2 * k) == x2;
    XorAssociates(x, x1, Xor(x1, x2));
    XorAssociates(x1, x1, x2);
    XorSelf(x1);
    XorCommutes(0, x2);
    assert Xor(y, Xor(x1, x2)) == Xor(x, x2);
    XorCancels(x, x2);
  }

  lemma XorShiftReached(y: u64, k: nat)
    requires 3 * k >= 64
    ensures XorShift(UnXorShift(y, k), k) == y
  {
    var y1, y2 := Shr(y, k), Shr(y, 2 * k);
    var x := Xor(Xor(y, y1), y2);
    ShrOfXor(Xor(y, y1), y2, k);
    ShrOfXor(y, y1, k);
    ShrTwice(y, k, k);
    ThirdShiftVanishes(y, k);
    XorZero(Xor(y1, y2));
    assert Shr(x, k) == Xor(y1, y2);
    XorAssociates(y, y1, y2);
    XorCancels(y, Xor(y1, y2));
  }

  /** Multiplication by a constant is undone by its inverse modulo 2^64. */
  lemma MulUndone(x: u64, c: u64, d: u64)
    requires WrappingMul(c, d) == 1
    ensures WrappingMul(WrappingMul(x, c), d) == x
  {
    var k := (c * d) / U64_LIMIT;
    var q := (x * c) / U64_LIMIT;
    var r := (x * c) % U64_LIMIT;
    assert c * d == k * U64_LIMIT + 1;
    assert x * c == q * U64_LIMIT + r;
    Regroup(x, c, d, k, q, r, U64_LIMIT);
    Wraps(x, x * k - q * d);
  }

  lemma Regroup(x: int, c: int, d: int, k: int, q: int, r: int, m: int)
    requires c * d == k * m + 1 && x * c == q * m + r
    ensures r * d == x + m * (x * k - q * d)
  {
    assert r * d == (x * c - q * m) * d == x * (c * d) - q * m * d;
    assert x * (c * d) == x * (k * m) + x;
    assert m * (x * k - q * d) == x * (k * m) - q * m * d;
  }

  lemma Wraps(x: u64, t: int)
    ensures (x + U64_LIMIT * t) % U64_LIMIT == x
  {
  }

  lemma MultipliersInvert(x: u64)
    ensures WrappingMul(WrappingMul(x, MULTIPLIER_A), INVERSE_A) == x
    ensures WrappingMul(WrappingMul(x, INVERSE_A), MULTIPLIER_A) == x
    ensures WrappingMul(WrappingMul(x, MULTIPLIER_B), INVERSE_B) == x
    ensures WrappingMul(WrappingMul(x, INVERSE_B), MULTIPLIER_B) == x
    ensures WrappingMul(WrappingMul(x, MULTIPLIER_G), INVERSE_G) == x
    ensures WrappingMul(WrappingMul(x, INVERSE_G), MULTIPLIER_G) == x
  {
    MulUndone(x, MULTIPLIER_A, INVERSE_A);
    MulUndone(x, INVERSE_A, MULTIPLIER_A);
    MulUndone(x, MULTIPLIER_B, INVERSE_B);
    MulUndone(x, INVERSE_B, MULTIPLIER_B);
    MulUndone(x, MULTIPLIER_G, INVERSE_G);
    MulUndone(x, INVERSE_G, MULTIPLIER_G);
  }

  /** The inverse of the finaliser. */
  function Settle(root: u64): u64 {
    UnXorShift(WrappingMul(UnXorShift(WrappingMul(UnXorShift(root, 31), INVERSE_B), 27), INVERSE_A), 30)
  }

  /** The finaliser is a bijection on 64-bit words. */
  lemma AvalancheBijective(x: u64)
    ensures Settle(Avalanche(x)) == x
    ensures Avalanche(Settle(x)) == x
  {
    var a := XorShift(x, 30);
    var b := WrappingMul(a, MULTIPLIER_A);
    var c := XorShift(b, 27);
    var d := WrappingMul(c, MULTIPLIER_B);
    XorShiftUndone(x, 30);
    XorShiftUndone(b, 27);
    XorShiftUndone(d, 31);
    MultipliersInvert(a);
    MultipliersInvert(c);
    var e := UnXorShift(x, 31);
    var f := WrappingMul(e, INVERSE_B);
    var g := UnXorShift(f, 27);
    var h := WrappingMul(g, INVERSE_A);
    XorShiftReached(x, 31);
    XorShiftReached(f, 27);
    XorShiftReached(h, 30);
    MultipliersInvert(e);
    MultipliersInvert(g);
  }

  /** The only word that takes `state` to `root`, and the only state that `word` takes to `root`. */
  function WordFor(state: u64, root: u64): u64 {
    WrappingMul(Xor64(state, Settle(root)), INVERSE_G)
  }

  function StateFor(word: u64, root: u64): u64 {
    Xor64(Settle(root), WrappingMul(word, MULTIPLIER_G))
  }

  /** Absorbing is a bijection in each argument. */
  lemma AbsorbBijective(state: u64, word: u64, root: u64)
    ensures Absorb(state, word) == root <==> word == WordFor(state, root)
    ensures Absorb(state, word) == root <==> state == StateFor(word, root)
  {
    var w := WrappingMul(word, MULTIPLIER_G);
    AvalancheBijective(Xor64(state, w));
    AvalancheBijective(root);
    MultipliersInvert(word);
    XorCancels(state, w);
    XorCommutes(state, w);
    XorCancels(w, state);
    XorCommutes(Xor(w, state), state);
    var v := Xor64(state, Settle(root));
    MultipliersInvert(v);
    XorCommutes(state, v);
    XorCommutes(state, Settle(root));
    XorCancels(Settle(root), state);
    XorCancels(Settle(root), w);
  }

  /** Two pairs with the same outcome agree in one place only if they agree in both. */
  ghost predicate Injective(step: (u64, u64) -> u64) {
    forall s, v, t, w {:trigger step(s, v), step(t, w)} :: step(s, v) == step(t, w) ==> (v == w <==> s == t)
  }

  lemma AbsorbInjective()
    ensures Injective(Absorb)
  {
    forall s, v, t, w | Absorb(s, v) == Absorb(t, w)
      ensures v == w <==> s == t
    {
      AbsorbBijective(s, v, Absorb(s, v));
      AbsorbBijective(t, w, Absorb(s, v));
    }
  }

  // ----- folding -----

  /** From different states the same words lead to different states. */
  lemma {:induction false} FoldInjective(step: (u64, u64) -> u64, s: u64, t: u64, words: seq<u64>)
    requires Injective(step)
    ensures FoldWith(step, s, words) == FoldWith(step, t, words) <==> s == t
    decreases |words|
  {
    if words != [] {
      FoldInjective(step, step(s, words[0]), step(t, words[0]), words[1..]);
    }
  }

  lemma {:induction false} FoldConcat(step: (u64, u64) -> u64, s: u64, a: seq<u64>, b: seq<u64>)
    ensures FoldWith(step, s, a + b) == FoldWith(step, FoldWith(step, s, a), b)
    decreases |a|
  {
    if a == [] {
      assert a + b == b;
    } else {
      assert (a + b)[0] == a[0] && (a + b)[1..] == a[1..] + b;
      FoldConcat(step, step(s, a[0]), a[1..], b);
    }
  }

  lemma FoldOne(step: (u64, u64) -> u64, s: u64, a: seq<u64>, w: u64)
    ensures FoldWith(step, s, a + [w]) == step(FoldWith(step, s, a), w)
  {
    FoldConcat(step, s, a, [w]);
    assert [w][1..] == [];
  }

  /** Absorbs `words` one at a time, in a loop. */
  method AbsorbAll(state: u64, words: seq<u64>) returns (r: u64)
    ensures r == Fold(state, words)
  {
    r := state;
    for i := 0 to |words|
      invariant r == Fold(state, words[..i])
    {
      assert words[..i + 1] == words[..i] + [words[i]];
      FoldOne(Absorb, state, words[..i], words[i]);
      r := Absorb(r, words[i]);
    }
    assert words[..|words|] == words;
  }

  /** The two sequences differ in position `i` and nowhere else. */
  predicate ApartAt(a: seq<u64>, b: seq<u64>, i: nat) {
    && i < |a| == |b|
    && a[i] != b[i]
    && a[..i] == b[..i] && a[i + 1..] == b[i + 1..]
  }

  /** Updating one place to another word leaves the lists apart there. */
  lemma UpdateApart(words: seq<u64>, i: nat, x: u64)
    requires i < |words| && words[i] != x
    ensures ApartAt(words, words[i := x], i)
  {
    assert words[i := x][..i] == words[..i] && words[i := x][i + 1..] == words[i + 1..];
  }

  /** Changing exactly one word always changes the state reached. */
  lemma FoldWithSensitive(step: (u64, u64) -> u64, s: u64, a: seq<u64>, b: seq<u64>, i: nat)
    requires Injective(step) && ApartAt(a, b, i)
    ensures FoldWith(step, s, a) != FoldWith(step, s, b)
  {
    assert a == a[..i] + [a[i]] + a[i + 1..];
    assert b == b[..i] + [b[i]] + b[i + 1..];
    FoldConcat(step, s, a[..i] + [a[i]], a[i + 1..]);
    FoldConcat(step, s, b[..i] + [b[i]], b[i + 1..]);
    FoldOne(step, s, a[..i], a[i]);
    FoldOne(step, s, b[..i], b[i]);
    var t := FoldWith(step, s, a[..i]);
    FoldInjective(step, step(t, a[i]), step(t, b[i]), a[i + 1..]);
  }

  /** Under one starting state, sequences of words that differ in exactly one position never collide. */
  lemma FoldSensitive(s: u64, a: seq<u64>, b: seq<u64>, i: nat)
    requires ApartAt(a, b, i)
    ensures Fold(s, a) != Fold(s, b)
  {
    AbsorbInjective();
    FoldWithSensitive(Absorb, s, a, b, i);
  }

  /** The state from which `words` lead to `root`. */
  function Rewind(back: (u64, u64) -> u64, words: seq<u64>, root: u64): u64
    decreases |words|
  {
    if words == [] then root else back(words[0], Rewind(back, words[1..], root))
  }

  /** `back` undoes `step` in its first argument. */
  ghost predicate Undoes(step: (u64, u64) -> u64, back: (u64, u64) -> u64) {
    forall s, w, r {:trigger step(s, w), back(w, r)} :: step(s, w) == r <==> s == back(w, r)
  }

  lemma {:induction false} RewindFold(step: (u64, u64) -> u64, back: (u64, u64) -> u64, s: u64, words: seq<u64>, root: u64)
    requires Undoes(step, back)
    ensures FoldWith(step, s, words) == root <==> s == Rewind(back, words, root)
    decreases |words|
  {
    if words != [] {
      RewindFold(step, back, step(s, words[0]), words[1..], root);
    }
  }

  /** Whatever the other words, exactly one value of word `i` leads to a given final state. */
  lemma ExactlyOneWord(s: u64, words: seq<u64>, i: nat, root: u64) returns (w: u64)
    requires i < |words|
    ensures Fold(s, words) == root <==> words[i] == w
    ensures w == WordFor(Fold(s, words[..i]), Rewind(StateFor, words[i + 1..], root))
  {
    forall t, v, r
      ensures Absorb(t, v) == r <==> t == StateFor(v, r)
    {
      AbsorbBijective(t, v, r);
    }
    var t := Fold(s, words[..i]);
    var after := Rewind(StateFor, words[i + 1..], root);
    w := WordFor(t, after);
    assert words == words[..i] + [words[i]] + words[i + 1..];
    FoldConcat(Absorb, s, words[..i] + [words[i]], words[i + 1..]);
    FoldOne(Absorb, s, words[..i], words[i]);
    RewindFold(Absorb, StateFor, Absorb(t, words[i]), words[i + 1..], root);
    AbsorbBijective(t, words[i], after);
  }
}
