/**
  Bit-level operations on unsigned integers, written out on `nat` so that the
  C expressions `~0ULL`, `x >> s`, `a & b` and `(x >> k) & 1` have an exact
  counterpart.
 */
module Bits {

  function Pow2(k: nat): (r: nat)
    ensures r >= 1
  {
    if k == 0 then 1 else 2 * Pow2(k - 1)
  }

  /** Bit `k` of `x`, least significant first: `(x >> k) & 1 == 1`. */
  predicate Bit(x: nat, k: nat)
  {
    if k == 0 then x % 2 == 1 else Bit(x / 2, k - 1)
  }

  /** Logical right shift `x >> s`. */
  function Shr(x: nat, s: nat): nat
  {
    if s == 0 then x else Shr(x / 2, s - 1)
  }

  /** The value with the low `w` bits set, so `Ones(64)` is `~0ULL`. */
  function Ones(w: nat): nat
  {
    if w == 0 then 0 else 1 + 2 * Ones(w - 1)
  }

  /** Bitwise and `a & b`. */
  function And(a: nat, b: nat): nat
  {
    if a == 0 || b == 0 then 0
    else (if a % 2 == 1 && b % 2 == 1 then 1 else 0) + 2 * And(a / 2, b / 2)
  }

  lemma {:induction false} BitOnes(w: nat, k: nat)
    ensures Bit(Ones(w), k) <==> k < w
    decreases k
  {
    if k == 0 {
    } else if w == 0 {
      BitOfZero(k);
    } else {
      var o := Ones(w - 1);
      assert Ones(w) == 1 + 2 * o;
      assert (1 + 2 * o) / 2 == o;
      BitOnes(w - 1, k - 1);
    }
  }

  lemma {:induction false} OnesPlusOne(w: nat)
    ensures Ones(w) + 1 == Pow2(w)
  {
    if w > 0 {
      OnesPlusOne(w - 1);
    }
  }

  lemma {:induction false} BitShr(x: nat, s: nat, k: nat)
    ensures Bit(Shr(x, s), k) <==> Bit(x, s + k)
    decreases s
  {
    if s > 0 {
      BitShr(x / 2, s - 1, k);
      assert Bit(x, s + k) == Bit(x / 2, s - 1 + k);
    }
  }

  lemma {:induction false} BitAnd(a: nat, b: nat, k: nat)
    ensures Bit(And(a, b), k) <==> Bit(a, k) && Bit(b, k)
    decreases a
  {
    if a == 0 {
      BitOfZero(k);
    } else if b == 0 {
      BitOfZero(k);
    } else {
      var lo := if a % 2 == 1 && b % 2 == 1 then 1 else 0;
      var q := And(a / 2, b / 2);
      assert And(a, b) == lo + 2 * q;
      if k == 0 {
        assert (lo + 2 * q) % 2 == lo;
      } else {
        assert (lo + 2 * q) / 2 == q;
        BitAnd(a / 2, b / 2, k - 1);
      }
    }
  }

  lemma {:induction false} BitOfZero(k: nat)
    ensures !Bit(0, k)
  {
    if k > 0 {
      BitOfZero(k - 1);
    }
  }

  lemma {:induction false} AndBound(a: nat, b: nat)
    ensures And(a, b) <= a
    decreases a
  {
    if a != 0 && b != 0 {
      AndBound(a / 2, b / 2);
    }
  }
}
