/** Single bits of machine words: OR, AND, shifts and masks, bit by bit. */
module Bits {
  import opened Machine
  import opened Words

  predicate Bit(a: nat, i: nat)
    decreases i
  {
    if i == 0 then a % 2 == 1 else Bit(a / 2, i - 1)
  }

  function OrBits(a: nat, b: nat): nat
    decreases a + b
  {
    if a == 0 && b == 0 then 0
    else (if a % 2 == 1 || b % 2 == 1 then 1 else 0) + 2 * OrBits(a / 2, b / 2)
  }

  function AndBits(a: nat, b: nat): nat
    decreases a + b
  {
    if a == 0 && b == 0 then 0
    else (if a % 2 == 1 && b % 2 == 1 then 1 else 0) + 2 * AndBits(a / 2, b / 2)
  }

  lemma {:induction false} ZeroHasNoBits(i: nat)
    ensures !Bit(0, i)
    decreases i
  {
    if i > 0 { ZeroHasNoBits(i - 1); }
  }

  /** Exclusive or, bit by bit. */
  lemma {:induction false} BitXor(a: nat, b: nat, i: nat)
    ensures Bit(XorBits(a, b), i) <==> Bit(a, i) != Bit(b, i)
    decreases i
  {
    hide XorBits;
    XorDigits(a, b);
    if i > 0 { BitXor(a / 2, b / 2, i - 1); }
  }

  lemma {:induction false} BitOr(a: nat, b: nat, i: nat)
    ensures Bit(OrBits(a, b), i) <==> Bit(a, i) || Bit(b, i)
    decreases i
  {
    if a == 0 && b == 0 {
      ZeroHasNoBits(i);
    } else {
      LowBit(OrBits(a, b), if a % 2 == 1 || b % 2 == 1 then 1 else 0, OrBits(a / 2, b / 2));
      if i > 0 { BitOr(a / 2, b / 2, i - 1); }
    }
  }

  lemma {:induction false} BitAnd(a: nat, b: nat, i: nat)
    ensures Bit(AndBits(a, b), i) <==> Bit(a, i) && Bit(b, i)
    decreases i
  {
    if a == 0 && b == 0 {
      ZeroHasNoBits(i);
    } else {
      LowBit(AndBits(a, b), if a % 2 == 1 && b % 2 == 1 then 1 else 0, AndBits(a / 2, b / 2));
      if i > 0 { BitAnd(a / 2, b / 2, i - 1); }
    }
  }

  /** `a >> s`. */
  function Shr(a: nat, s: nat): nat {
    if s == 0 then a else Shr(a / 2, s - 1)
  }

  /** A shift moves bit `i + s` to place `i`. */
  lemma {:induction false} BitShift(a: nat, s: nat, i: nat)
    ensures Bit(Shr(a, s), i) <==> Bit(a, i + s)
    decreases s
  {
    if s > 0 {
      BitShift(a / 2, s - 1, i);
    }
  }

  lemma Quotient(a: nat, m: nat, p: nat, low: nat)
    requires m > 0 && low < m && a == m * p + low
    ensures a / m == p
  {
    var (q, r) := (a / m, a % m);
    assert a == m * q + r;
    Distribute(m, q, p);
    SmallMultiple(low - r, m, q - p);
    if q != p { NonzeroProduct(m, q - p); }
  }

  lemma NonzeroProduct(m: int, z: int)
    requires m > 0 && z != 0
    ensures m * z != 0
  {
  }

  /** Words with the same bits are equal. */
  lemma {:induction false} SameBits(a: nat, b: nat)
    requires forall i: nat :: Bit(a, i) <==> Bit(b, i)
    ensures a == b
    decreases a + b
  {
    if a != 0 || b != 0 {
      assert Bit(a, 0) <==> Bit(b, 0);
      forall i: nat ensures Bit(a / 2, i) <==> Bit(b / 2, i) {
        assert Bit(a, i + 1) <==> Bit(b, i + 1);
      }
      SameBits(a / 2, b / 2);
    }
  }

  /** `1 << n` has just bit `n`. */
  lemma {:induction false} BitOfPow2(n: nat, i: nat)
    ensures Bit(Pow2(n), i) <==> i == n
    decreases n + i
  {
    if n == 0 {
      if i > 0 { ZeroHasNoBits(i - 1); }
    } else if i > 0 {
      BitOfPow2(n - 1, i - 1);
    }
  }

  lemma OddBit(low: nat, i: nat)
    ensures Bit(2 * low + 1, i) <==> i == 0 || Bit(low, i - 1)
  {
    assert (2 * low + 1) % 2 == 1 && (2 * low + 1) / 2 == low;
  }

  lemma OnesDouble(n: nat)
    requires n > 0
    ensures Pow2(n - 1) > 0 && Pow2(n) - 1 == 2 * (Pow2(n - 1) - 1) + 1
  {
    Pow2Positive(n - 1);
  }

  /** `(1 << n) - 1` has the bits below `n`. */
  lemma {:induction false} BitOfOnes(n: nat, i: nat)
    ensures Pow2(n) > 0 && (Bit(Pow2(n) - 1, i) <==> i < n)
    decreases n + i
  {
    hide Bit;
    if n == 0 {
      ZeroHasNoBits(i);
    } else {
      hide Pow2;
      OnesDouble(n);
      OddBit(Pow2(n - 1) - 1, i);
      Pow2Positive(n);
      if i > 0 { BitOfOnes(n - 1, i - 1); }
    }
  }

  /** The place of the highest bit. */
  lemma {:induction false} Bracket(x: nat, limit: nat) returns (n: nat)
    requires 1 <= x < Pow2(limit)
    ensures n < limit && Pow2(n) <= x < Pow2(n + 1)
    decreases limit
  {
    if limit > 0 && x < Pow2(limit - 1) { n := Bracket(x, limit - 1); } else { n := limit - 1; }
  }

  /** A number below `2^n` has no bit from `n` on. */
  lemma {:induction false} NoHighBits(a: nat, n: nat, i: nat)
    requires a < Pow2(n) && i >= n
    ensures !Bit(a, i)
    decreases n + i
  {
    if n == 0 {
      ZeroHasNoBits(i);
    } else {
      NoHighBits(a / 2, n - 1, i - 1);
    }
  }

  /** A number in `[2^n, 2^(n+1))` has bit `n`. */
  lemma {:induction false} TopBit(a: nat, n: nat)
    requires Pow2(n) <= a < Pow2(n + 1)
    ensures Bit(a, n)
    decreases n
  {
    if n > 0 {
      TopBit(a / 2, n - 1);
    }
  }

  lemma {:induction false} BitsBound(a: nat, n: nat)
    requires forall i: nat :: i >= n ==> !Bit(a, i)
    ensures a < Pow2(n)
    decreases n, a
  {
    if n == 0 {
      if a != 0 {
        forall i: nat ensures Bit(a, i) <==> Bit(0, i) { ZeroHasNoBits(i); }
        SameBits(a, 0);
      }
    } else {
      forall i: nat | i >= n - 1 ensures !Bit(a / 2, i) { assert !Bit(a, i + 1); }
      BitsBound(a / 2, n - 1);
    }
  }

  /** 64-bit OR and AND. */
  function Or(a: u64, b: u64): u64 {
    OrBound(a, b);
    OrBits(a, b)
  }

  lemma OrBound(a: u64, b: u64)
    ensures OrBits(a, b) < 0x1_0000_0000_0000_0000
  {
    hide Pow2, Bit, OrBits;
    Pow2Of64();
    forall i: nat | i >= 64 ensures !Bit(OrBits(a, b), i) {
      BitOr(a, b, i);
      NoHighBits(a, 64, i);
      NoHighBits(b, 64, i);
    }
    BitsBound(OrBits(a, b), 64);
  }

  /** Masking with `2^n - 1` is the remainder modulo `2^n`. */
  lemma {:induction false} MaskIsMod(a: nat, n: nat)
    ensures Pow2(n) > 0 && AndBits(a, Pow2(n) - 1) == a % Pow2(n)
    decreases n
  {
    if n == 0 {
      AndZero(a);
    } else {
      MaskIsMod(a / 2, n - 1);
      var p := Pow2(n - 1);
      assert (Pow2(n) - 1) / 2 == p - 1 && (Pow2(n) - 1) % 2 == 1;
      ModHalves(a, p);
    }
  }

  lemma {:induction false} AndZero(a: nat)
    ensures AndBits(a, 0) == 0
    decreases a
  {
    if a != 0 { AndZero(a / 2); }
  }

  lemma ModHalves(a: nat, p: nat)
    requires p > 0
    ensures a % (2 * p) == a % 2 + 2 * (a / 2 % p)
  {
    var h := a / 2;
    var (q, r) := (h / p, h % p);
    assert h == p * q + r;
    assert a == (2 * p) * q + (a % 2 + 2 * r) by { MulAssoc(2, p, q); }
    Quotient(a, 2 * p, q, a % 2 + 2 * r);
    assert a == (2 * p) * (a / (2 * p)) + a % (2 * p);
  }

  /** `x | 1`. */
  lemma OrOne(a: nat)
    ensures OrBits(a, 1) == if a % 2 == 1 then a else a + 1
  {
    OrZero(a / 2);
    assert OrBits(a, 1) == 1 + 2 * OrBits(a / 2, 0);
  }

  lemma {:induction false} OrZero(a: nat)
    ensures OrBits(a, 0) == a
    decreases a
  {
    if a != 0 { OrZero(a / 2); }
  }

  /** `(w & (1 << b)) == 0` tests bit `b`. */
  lemma TestBit(w: nat, b: nat)
    ensures AndBits(w, Pow2(b)) == 0 <==> !Bit(w, b)
  {
    hide AndBits, Bit, Pow2;
    BitAnd(w, Pow2(b), b);
    BitOfPow2(b, b);
    if !Bit(w, b) {
      forall i: nat ensures Bit(AndBits(w, Pow2(b)), i) <==> Bit(0, i) {
        BitAnd(w, Pow2(b), i);
        BitOfPow2(b, i);
        ZeroHasNoBits(i);
      }
      SameBits(AndBits(w, Pow2(b)), 0);
    } else {
      ZeroHasNoBits(b);
    }
  }

  /** Every bit of `m` is set in `w`. */
  ghost predicate Covers(w: nat, m: nat) {
    forall i: nat :: Bit(m, i) ==> Bit(w, i)
  }

  /** `(w & m) == m`. */
  lemma CoversMask(w: nat, m: nat)
    ensures AndBits(w, m) == m <==> Covers(w, m)
  {
    hide AndBits, Bit;
    forall i: nat ensures Bit(AndBits(w, m), i) <==> Bit(w, i) && Bit(m, i) { BitAnd(w, m, i); }
    if AndBits(w, m) == m {
      forall i: nat | Bit(m, i) ensures Bit(w, i) { BitAnd(w, m, i); }
    }
    if Covers(w, m) {
      SameBits(AndBits(w, m), m);
    }
  }
}
