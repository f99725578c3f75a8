/** Arithmetic of 64-bit words: exclusive or, odd multipliers, and the 128-bit product. */
module Words {
  import opened Machine

  function Pow2(n: nat): nat {
    if n == 0 then 1 else 2 * Pow2(n - 1)
  }

  lemma {:induction false} Pow2Positive(n: nat)
    ensures Pow2(n) > 0
  {
    if n > 0 { Pow2Positive(n - 1); }
  }

  lemma {:induction false} Pow2Add(m: nat, n: nat)
    ensures Pow2(m + n) == Pow2(m) * Pow2(n)
  {
    if m > 0 {
      Pow2Add(m - 1, n);
      MulAssoc(2, Pow2(m - 1), Pow2(n));
    }
  }

  lemma Pow2Of64()
    ensures Pow2(64) == 0x1_0000_0000_0000_0000
  {
    assert Pow2(4) == 0x10 by { assert Pow2(2) == 4; }
    Pow2Add(4, 4);
    Pow2Add(8, 8);
    Pow2Add(16, 16);
    Pow2Add(32, 32);
  }

  /** Bitwise exclusive or. */
  function XorBits(a: nat, b: nat): nat
    decreases a + b
  {
    if a == 0 && b == 0 then 0 else (a + b) % 2 + 2 * XorBits(a / 2, b / 2)
  }

  lemma {:induction false} XorBound(a: nat, b: nat, n: nat)
    requires a < Pow2(n) && b < Pow2(n)
    ensures XorBits(a, b) < Pow2(n)
    decreases n
  {
    if n > 0 && (a != 0 || b != 0) {
      XorBound(a / 2, b / 2, n - 1);
    }
  }

  function Xor(a: u64, b: u64): u64 {
    Pow2Of64();
    XorBound(a, b, 64);
    XorBits(a, b)
  }

  lemma XorDigits(a: nat, b: nat)
    ensures XorBits(a, b) == (a + b) % 2 + 2 * XorBits(a / 2, b / 2)
    ensures XorBits(a, b) % 2 == (a + b) % 2
    ensures XorBits(a, b) / 2 == XorBits(a / 2, b / 2)
  {
    LowBit(XorBits(a, b), (a + b) % 2, XorBits(a / 2, b / 2));
  }

  lemma LowBit(x: nat, bit: nat, rest: nat)
    requires bit < 2
    ensures x == bit + 2 * rest ==> x % 2 == bit && x / 2 == rest
  {
  }

  lemma {:induction false} XorAssociative(a: nat, b: nat, c: nat)
    ensures XorBits(XorBits(a, b), c) == XorBits(a, XorBits(b, c))
    decreases a + b + c
  {
    hide XorBits;
    if a != 0 || b != 0 || c != 0 {
      XorAssociative(a / 2, b / 2, c / 2);
      XorDigits(a, b);
      XorDigits(b, c);
      XorDigits(XorBits(a, b), c);
      XorDigits(a, XorBits(b, c));
      ParitySum(a, b, c, XorBits(a, b), XorBits(b, c));
    } else {
      XorZero();
    }
  }

  lemma XorZero()
    ensures XorBits(0, 0) == 0
  {
  }

  lemma ParitySum(a: nat, b: nat, c: nat, ab: nat, bc: nat)
    requires ab % 2 == (a + b) % 2 && bc % 2 == (b + c) % 2
    ensures (ab + c) % 2 == (a + bc) % 2
  {
  }

  lemma {:induction false} XorCancel(a: nat, b: nat, c: nat)
    requires XorBits(a, b) == XorBits(a, c)
    ensures b == c
    decreases a + b + c
  {
    hide XorBits;
    if a != 0 || b != 0 || c != 0 {
      XorDigits(a, b);
      XorDigits(a, c);
      XorCancel(a / 2, b / 2, c / 2);
    }
  }

  /** An odd factor can be dropped from a multiple of a power of two. */
  lemma {:induction false} OddFactor(d: int, x: int, q: int, n: nat)
    requires d % 2 == 1 && d * x == Pow2(n) * q
    ensures exists y :: x == Pow2(n) * y
    decreases n
  {
    if n == 0 {
      assert x == Pow2(0) * x;
    } else {
      var half := Pow2(n - 1);
      assert Pow2(n) * q == 2 * (half * q) by { MulAssoc(2, half, q); }
      OddEven(d, x, half * q);
      var h := x / 2;
      assert d * x == 2 * (d * h) by { assert x == 2 * h; MulAssoc(2, d, h); MulAssoc(d, 2, h); }
      assert d * h == half * q;
      OddFactor(d, h, q, n - 1);
      var y :| h == half * y;
      assert x == Pow2(n) * y by { MulAssoc(2, half, y); }
    }
  }

  lemma MulAssoc(a: int, b: int, c: int)
    ensures (a * b) * c == a * (b * c)
  {
  }

  lemma OddEven(d: int, x: int, k: int)
    requires d % 2 == 1 && d * x == 2 * k
    ensures x % 2 == 0
  {
    var (e, y) := (d / 2, x / 2);
    OddTimes(e, y);
  }

  lemma OddTimes(e: int, y: int)
    ensures (2 * e + 1) * (2 * y + 1) == 2 * (2 * (e * y) + e + y) + 1
  {
  }

  /** Multiplying by an odd number modulo 2^n loses nothing: equal products come from equal factors. */
  lemma OddMultiplier(d: int, x: nat, y: nat, q: int, n: nat)
    requires d % 2 == 1 && x < Pow2(n) && y < Pow2(n) && d * x - d * y == Pow2(n) * q
    ensures x == y
  {
    hide Pow2;
    Distribute(d, x, y);
    OddFactor(d, x - y, q, n);
    var z :| x - y == Pow2(n) * z;
    SmallMultiple(x - y, Pow2(n), z);
  }

  lemma Distribute(d: int, x: int, y: int)
    ensures d * (x - y) == d * x - d * y
  {
  }

  lemma SmallMultiple(d: int, M: int, z: int)
    requires -M < d < M && d == M * z
    ensures d == 0
  {
    if z >= 1 { MulMono(M, M, 1, z); }
    if z <= -1 { MulMono(M, M, 1, -z); }
  }

  // -----------------------------------------------------------------------------
  // 64 x 64 -> 128 bit multiply.

  datatype Wide = Wide(lo: u64, hi: u64)

  lemma ProductBound(a: u64, b: u64)
    ensures 0 <= a * b < 0x1_0000_0000_0000_0000 * 0x1_0000_0000_0000_0000
  {
    MulMono(a, 0xFFFF_FFFF_FFFF_FFFF, b, 0xFFFF_FFFF_FFFF_FFFF);
  }

  lemma MulMono(a: nat, c: nat, b: nat, d: nat)
    requires a <= c && b <= d
    ensures 0 <= a * b <= c * d
  {
    assert a * b <= c * b <= c * d;
  }

  /** The exact product, as the compiler's 128-bit type computes it. */
  function Mul128(a: u64, b: u64): Wide {
    ProductBound(a, b);
    Wide(a * b % 0x1_0000_0000_0000_0000, a * b / 0x1_0000_0000_0000_0000)
  }

  /** `uint64_t` multiplication. */
  function MulWrap(x: u64, y: u64): u64 {
    x * y % 0x1_0000_0000_0000_0000
  }

  /** `x << 32` in a `uint64_t`: the upper half is shifted out. */
  function Shift32(x: u64): u64 {
    x % 0x1_0000_0000 * 0x1_0000_0000
  }

  /** Adds up the four partial products; sums are reduced modulo 2^64, as `uint64_t` arithmetic does. */
  function Combine(ll: u64, lh: u64, hl: u64, hh: u64): Wide {
    var mid := (ll / 0x1_0000_0000 + lh % 0x1_0000_0000 + hl % 0x1_0000_0000) % 0x1_0000_0000_0000_0000;
    Wide(Shift32(mid) + ll % 0x1_0000_0000,
         (hh + lh / 0x1_0000_0000 + hl / 0x1_0000_0000 + mid / 0x1_0000_0000) % 0x1_0000_0000_0000_0000)
  }

  /** Schoolbook multiply on 32-bit halves, for targets without a wide multiply. */
  function Schoolbook(a: u64, b: u64): Wide {
    var (al, ah) := (a % 0x1_0000_0000, a / 0x1_0000_0000);
    var (bl, bh) := (b % 0x1_0000_0000, b / 0x1_0000_0000);
    Combine(MulWrap(al, bl), MulWrap(al, bh), MulWrap(ah, bl), MulWrap(ah, bh))
  }

  lemma HalfProduct(x: nat, y: nat)
    requires x < 0x1_0000_0000 && y < 0x1_0000_0000
    ensures 0 <= x * y <= 0xFFFF_FFFF * 0xFFFF_FFFF < 0x1_0000_0000_0000_0000
  {
    MulMono(x, 0xFFFF_FFFF, y, 0xFFFF_FFFF);
  }

  lemma SplitProduct(al: nat, ah: nat, bl: nat, bh: nat)
    ensures (ah * 0x1_0000_0000 + al) * (bh * 0x1_0000_0000 + bl)
         == (ah * bh) * 0x1_0000_0000_0000_0000 + (al * bh + ah * bl) * 0x1_0000_0000 + al * bl
  {
  }

  /** The schoolbook form is the exact product, and none of its intermediate sums wraps. */
  lemma SchoolbookExact(a: u64, b: u64)
    ensures Schoolbook(a, b) == Mul128(a, b)
    ensures var (al, ah, bl, bh) := (a % 0x1_0000_0000, a / 0x1_0000_0000, b % 0x1_0000_0000, b / 0x1_0000_0000);
      && al * bl < 0x1_0000_0000_0000_0000 && al * bh < 0x1_0000_0000_0000_0000 && ah * bl < 0x1_0000_0000_0000_0000 && ah * bh < 0x1_0000_0000_0000_0000
      && al * bl / 0x1_0000_0000 + al * bh % 0x1_0000_0000 + ah * bl % 0x1_0000_0000 < 0x1_0000_0000_0000_0000
      && ah * bh + al * bh / 0x1_0000_0000 + ah * bl / 0x1_0000_0000
         + (al * bl / 0x1_0000_0000 + al * bh % 0x1_0000_0000 + ah * bl % 0x1_0000_0000) / 0x1_0000_0000 < 0x1_0000_0000_0000_0000
  {
    var (al, ah, bl, bh) := (a % 0x1_0000_0000, a / 0x1_0000_0000, b % 0x1_0000_0000, b / 0x1_0000_0000);
    hide Combine, MulWrap;
    ProductBound(a, b);
    HalfProduct(al, bl);
    HalfProduct(al, bh);
    HalfProduct(ah, bl);
    HalfProduct(ah, bh);
    SplitProduct(al, ah, bl, bh);
    CombineHalves(al * bl, al * bh, ah * bl, ah * bh, a * b);
    NoWrap(al, bl);
    NoWrap(al, bh);
    NoWrap(ah, bl);
    NoWrap(ah, bh);
  }

  lemma NoWrap(x: u64, y: u64)
    requires x * y < 0x1_0000_0000_0000_0000
    ensures MulWrap(x, y) == x * y
  {
  }

  lemma CombineHalves(ll: nat, lh: nat, hl: nat, hh: nat, product: nat)
    requires product < 0x1_0000_0000_0000_0000 * 0x1_0000_0000_0000_0000
    requires ll <= 0xFFFF_FFFF * 0xFFFF_FFFF && lh <= 0xFFFF_FFFF * 0xFFFF_FFFF
    requires hl <= 0xFFFF_FFFF * 0xFFFF_FFFF && hh <= 0xFFFF_FFFF * 0xFFFF_FFFF
    requires product == hh * 0x1_0000_0000_0000_0000 + (lh + hl) * 0x1_0000_0000 + ll
    ensures var mid := ll / 0x1_0000_0000 + lh % 0x1_0000_0000 + hl % 0x1_0000_0000;
      && mid < 4 * 0x1_0000_0000
      && hh + lh / 0x1_0000_0000 + hl / 0x1_0000_0000 + mid / 0x1_0000_0000 < 0x1_0000_0000_0000_0000
      && product % 0x1_0000_0000_0000_0000 == mid % 0x1_0000_0000 * 0x1_0000_0000 + ll % 0x1_0000_0000
      && product / 0x1_0000_0000_0000_0000 == hh + lh / 0x1_0000_0000 + hl / 0x1_0000_0000 + mid / 0x1_0000_0000
      && Combine(ll, lh, hl, hh) == Wide(product % 0x1_0000_0000_0000_0000, product / 0x1_0000_0000_0000_0000)
  {
    hide Combine;
    var (llh, lll) := (ll / 0x1_0000_0000, ll % 0x1_0000_0000);
    var (lhh, lhl) := (lh / 0x1_0000_0000, lh % 0x1_0000_0000);
    var (hlh, hll) := (hl / 0x1_0000_0000, hl % 0x1_0000_0000);
    Halves(ll);
    Halves(lh);
    Halves(hl);
    CombineSplit(llh, lll, lhh, lhl, hlh, hll, hh, product);
    CombineUnwrapped(ll, lh, hl, hh);
  }

  lemma Halves(x: u64)
    ensures x == x / 0x1_0000_0000 * 0x1_0000_0000 + x % 0x1_0000_0000
    ensures 0 <= x / 0x1_0000_0000 < 0x1_0000_0000 && 0 <= x % 0x1_0000_0000 < 0x1_0000_0000
  {
  }

  lemma CombineUnwrapped(ll: u64, lh: u64, hl: u64, hh: u64)
    requires var mid := ll / 0x1_0000_0000 + lh % 0x1_0000_0000 + hl % 0x1_0000_0000;
      && mid < 0x1_0000_0000_0000_0000
      && hh + lh / 0x1_0000_0000 + hl / 0x1_0000_0000 + mid / 0x1_0000_0000 < 0x1_0000_0000_0000_0000
    ensures var mid := ll / 0x1_0000_0000 + lh % 0x1_0000_0000 + hl % 0x1_0000_0000;
      Combine(ll, lh, hl, hh) == Wide(mid % 0x1_0000_0000 * 0x1_0000_0000 + ll % 0x1_0000_0000,
                                      hh + lh / 0x1_0000_0000 + hl / 0x1_0000_0000 + mid / 0x1_0000_0000)
  {
    hide Shift32;
    CombineParts(ll / 0x1_0000_0000, ll % 0x1_0000_0000, lh / 0x1_0000_0000, lh % 0x1_0000_0000,
                 hl / 0x1_0000_0000, hl % 0x1_0000_0000, hh);
  }

  lemma CombineParts(llh: nat, lll: u32, lhh: nat, lhl: u32, hlh: nat, hll: u32, hh: nat)
    requires llh < 0x1_0000_0000
    requires hh + lhh + hlh + (llh + lhl + hll) / 0x1_0000_0000 < 0x1_0000_0000_0000_0000
    ensures var mid := llh + lhl + hll;
      && mid % 0x1_0000_0000_0000_0000 == mid
      && Shift32(mid) == mid % 0x1_0000_0000 * 0x1_0000_0000
      && (hh + lhh + hlh + mid / 0x1_0000_0000) % 0x1_0000_0000_0000_0000 == hh + lhh + hlh + mid / 0x1_0000_0000
  {
    FitsWord(llh + lhl + hll);
    FitsWord(hh + lhh + hlh + (llh + lhl + hll) / 0x1_0000_0000);
  }

  lemma FitsWord(x: nat)
    requires x < 0x1_0000_0000_0000_0000
    ensures x % 0x1_0000_0000_0000_0000 == x
  {
  }

  /** The same with every partial product given by its halves. */
  lemma CombineSplit(llh: nat, lll: u32, lhh: nat, lhl: u32, hlh: nat, hll: u32, hh: nat, product: nat)
    requires product < 0x1_0000_0000_0000_0000 * 0x1_0000_0000_0000_0000 && llh < 0x1_0000_0000
    requires product == hh * 0x1_0000_0000_0000_0000
                      + (lhh * 0x1_0000_0000 + lhl + hlh * 0x1_0000_0000 + hll) * 0x1_0000_0000 + llh * 0x1_0000_0000 + lll
    ensures var mid := llh + lhl + hll;
      && mid < 4 * 0x1_0000_0000
      && hh + lhh + hlh + mid / 0x1_0000_0000 < 0x1_0000_0000_0000_0000
      && product % 0x1_0000_0000_0000_0000 == mid % 0x1_0000_0000 * 0x1_0000_0000 + lll
      && product / 0x1_0000_0000_0000_0000 == hh + lhh + hlh + mid / 0x1_0000_0000
  {
    var mid := llh + lhl + hll;
    var (mh, ml) := (mid / 0x1_0000_0000, mid % 0x1_0000_0000);
    Carry(llh, lll, lhh, lhl, hlh, hll, mh, ml);
    HighLow(product, hh + lhh + hlh + mh, ml * 0x1_0000_0000 + lll);
  }

  /** The carries of the schoolbook sum, with every partial product split into halves. */
  lemma Carry(llh: nat, lll: nat, lhh: nat, lhl: nat, hlh: nat, hll: nat, mh: nat, ml: nat)
    requires llh + lhl + hll == mh * 0x1_0000_0000 + ml
    ensures (lhh * 0x1_0000_0000 + lhl + hlh * 0x1_0000_0000 + hll) * 0x1_0000_0000 + llh * 0x1_0000_0000 + lll
         == (lhh + hlh + mh) * 0x1_0000_0000_0000_0000 + ml * 0x1_0000_0000 + lll
  {
  }

  lemma HighLow(x: int, hi: int, lo: int)
    requires x == hi * 0x1_0000_0000_0000_0000 + lo && 0 <= lo < 0x1_0000_0000_0000_0000
    ensures x % 0x1_0000_0000_0000_0000 == lo && x / 0x1_0000_0000_0000_0000 == hi
  {
  }
}
