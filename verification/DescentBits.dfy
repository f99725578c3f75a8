/**
 Which bits of a digest a descent uses: the upper 12 for the top slot, then two bits a level from the top
 down, until only zeros are left. Then the register is reloaded, and the reload is used up in the same way.
 */
module DescentBits {
  import opened Machine
  import opened Words
  import opened Descent

  /** What is left of a 64-bit register `x` after `s` bits have been shifted out at the top. */
  function Rest(x: u64, s: nat): nat
    requires s <= 64
  {
    PowerPositive(64 - s);
    x % Pow2(64 - s)
  }

  lemma {:induction false} PowerPositive(n: nat)
    ensures Pow2(n) > 0
  {
    if n > 0 { PowerPositive(n - 1); }
  }

  /** The two bits of `x` that follow the first `s`. */
  function TwoBits(x: u64, s: nat): nat
    requires s + 2 <= 64
  {
    PowerPositive(62 - s);
    x / Pow2(62 - s) % 4
  }

  /** The bits below a power of two, split off at a quarter of it. */
  lemma Quarters(x: nat, m: nat)
    requires m > 0
    ensures x % (4 * m) == x / m % 4 * m + x % m
  {
    var (q, low) := (x / m, x % m);
    var (hi, d) := (q / 4, q % 4);
    assert x == (4 * hi + d) * m + low by { assert x == q * m + low; }
    assert (4 * hi + d) * m == hi * (4 * m) + d * m by { Shuffle(hi, d, m); }
    Remainder(x, 4 * m, hi, d * m + low) by { Digit4(d, m, low); }
  }

  lemma Shuffle(hi: nat, d: nat, m: nat)
    ensures (4 * hi + d) * m == hi * (4 * m) + d * m
  {
  }

  lemma Digit4(d: nat, m: nat, low: nat)
    requires d < 4 && low < m
    ensures 0 <= d * m + low < 4 * m
  {
    MulMono(d, 3, m, m);
  }

  lemma Remainder(x: nat, a: nat, q: nat, r: nat)
    requires a > 0 && r < a && x == q * a + r
    ensures x % a == r
  {
    if x / a < q { MulMono(x / a + 1, q, a, a); }
    if x / a > q { MulMono(q + 1, x / a, a, a); }
  }

  /** A register holding the rest of `x`: its next two bits, and the rest after they are shifted out. */
  lemma ShiftRest(x: u64, s: nat, h: u64)
    requires s + 2 <= 64 && h == Rest(x, s) * Pow2(s)
    ensures h / 0x4000_0000_0000_0000 == TwoBits(x, s)
    ensures h * 4 % TWO_64 == Rest(x, s + 2) * Pow2(s + 2)
  {
    hide Pow2;
    PowerPositive(62 - s);
    PowerPositive(s);
    var (m, t) := (Pow2(62 - s), Pow2(s));
    PowerSteps(s);
    Quarters(x, m);
    var (d, low) := (x / m % 4, x % m);
    assert h == (d * m + low) * t;
    ShiftedParts(d, low, m, t, h);
  }

  lemma PowerSteps(s: nat)
    requires s + 2 <= 64
    ensures Pow2(64 - s) == 4 * Pow2(62 - s) && Pow2(s + 2) == 4 * Pow2(s)
    ensures Pow2(62 - s) * Pow2(s) == 0x4000_0000_0000_0000
  {
    assert Pow2(64 - s) == 2 * Pow2(63 - s);
    assert Pow2(s + 2) == 2 * Pow2(s + 1);
    Pow2Add(62 - s, s);
    Pow2Of64();
    assert Pow2(64) == 2 * Pow2(63) == 4 * Pow2(62);
  }

  lemma ShiftedParts(d: nat, low: nat, m: nat, t: nat, h: nat)
    requires d < 4 && low < m && t > 0 && m * t == 0x4000_0000_0000_0000 && h == (d * m + low) * t
    ensures h / 0x4000_0000_0000_0000 == d && h * 4 % 0x1_0000_0000_0000_0000 == low * (4 * t)
  {
    var q := 0x4000_0000_0000_0000;
    assert h == d * q + low * t by { Spreading(d, m, low, t); }
    assert 0 <= low * t < q by { MulMono(low, m - 1, t, t); assert (m - 1) * t == m * t - t; }
    assert low * (4 * t) == 4 * (low * t) by { FourTimes(low, t); }
    assert h * 4 == d * 0x1_0000_0000_0000_0000 + 4 * (low * t);
  }

  lemma Spreading(d: nat, m: nat, low: nat, t: nat)
    ensures (d * m + low) * t == d * (m * t) + low * t
  {
    MulAssoc(d, m, t);
  }

  lemma FourTimes(low: nat, t: nat)
    ensures low * (4 * t) == 4 * (low * t)
  {
  }

  /** The register `x` loaded at level `d` with `s` bits already gone: as long as something is left after
      every shift, the next levels see its bits from the top down, and it is not reloaded. */
  lemma {:induction false} Untouched<K>(H: Hasher<K>, k: K, d: nat, x: u64, s: nat, r: u32, j: nat)
    requires s + 2 * j <= 64 && Rest(x, s) * Pow2(s) < TWO_64
    requires RegAt(H, k, d) == Reg(Rest(x, s) * Pow2(s), r)
    requires j > 0 ==> Rest(x, s + 2 * j) != 0
    ensures Rest(x, s + 2 * j) * Pow2(s + 2 * j) < TWO_64
    ensures RegAt(H, k, d + j) == Reg(Rest(x, s + 2 * j) * Pow2(s + 2 * j), r)
    decreases j
  {
    hide Pow2, Rest;
    if j > 0 {
      RestShrinks(x, s + 2 * (j - 1));
      Untouched(H, k, d, x, s, r, j - 1);
      var h := RegAt(H, k, d + j - 1).h;
      ShiftRest(x, s + 2 * (j - 1), h);
      PowerPositive(s + 2 * j);
      NonZero(Rest(x, s + 2 * j), Pow2(s + 2 * j));
    }
  }

  lemma NonZero(a: nat, b: nat)
    requires a > 0 && b > 0
    ensures a * b != 0
  {
  }

  lemma RestShrinks(x: u64, s: nat)
    requires s + 2 <= 64
    ensures Rest(x, s + 2) != 0 ==> Rest(x, s) != 0
  {
    hide Pow2;
    PowerPositive(62 - s);
    PowerSteps(s);
    Quarters(x, Pow2(62 - s));
    var d := x / Pow2(62 - s) % 4;
    assert d * Pow2(62 - s) >= 0;
  }

  /** The first shift that leaves nothing reloads the register, once, with the next round. */
  lemma Reloaded<K>(H: Hasher<K>, k: K, d: nat, x: u64, s: nat, r: u32, j: nat)
    requires 0 < j && s + 2 * j <= 64 && Rest(x, s) * Pow2(s) < TWO_64
    requires RegAt(H, k, d) == Reg(Rest(x, s) * Pow2(s), r)
    requires (j > 1 ==> Rest(x, s + 2 * (j - 1)) != 0) && Rest(x, s + 2 * j) == 0
    ensures var round := (r + 1) % 0x1_0000_0000; RegAt(H, k, d + j) == Reg(H.reseed(k, round), round)
  {
    hide Pow2, Rest;
    Untouched(H, k, d, x, s, r, j - 1);
    ShiftRest(x, s + 2 * (j - 1), RegAt(H, k, d + j - 1).h);
    ZeroTimes(Pow2(s + 2 * j));
  }

  lemma ZeroTimes(a: nat)
    ensures 0 * a == 0
  {
  }

  /** A reload is used from its first bit on. */
  lemma WholeRegister(x: u64)
    ensures Rest(x, 0) * Pow2(0) == x
  {
    Pow2Of64();
  }

  /** The register starts as the digest without its upper 12 bits. */
  lemma StartRest<K>(H: Hasher<K>, k: K)
    ensures Rest(H.digest(k), 12) * Pow2(12) < TWO_64
    ensures RegAt(H, k, 0) == Reg(Rest(H.digest(k), 12) * Pow2(12), 0)
  {
    var x: nat := H.digest(k);
    assert Pow2(12) == 4096 by { assert Pow2(4) == 16; Pow2Add(4, 4); Pow2Add(8, 4); }
    Pow52();
    hide Pow2;
    ShiftTwelve(x);
  }

  lemma ShiftTwelve(x: nat)
    ensures x * 4096 % 0x1_0000_0000_0000_0000 == x % 0x10_0000_0000_0000 * 4096
  {
    assert x == x / 0x10_0000_0000_0000 * 0x10_0000_0000_0000 + x % 0x10_0000_0000_0000;
  }

  /** The first choice is the digest's upper 12 bits; choice `i` is bits `12 + 2 (i - 1)` and the next, counted
      from the top, for as long as the digest has a set bit from there on. */
  lemma PathIsDigestBits<K>(H: Hasher<K>, k: K, n: nat, i: nat)
    requires i < n && i <= 26 && (i > 1 ==> Rest(H.digest(k), 10 + 2 * i) != 0)
    ensures i == 0 ==> Path(H, k, n)[0] == H.digest(k) / 0x10_0000_0000_0000
    ensures i > 0 ==> Path(H, k, n)[i] == TwoBits(H.digest(k), 10 + 2 * i)
  {
    hide Pow2, Rest, TwoBits;
    PathPrefix(H, k, i + 1, n);
    assert Path(H, k, n)[i] == Path(H, k, n)[..i + 1][i];
    if i > 0 {
      var x := H.digest(k);
      StartRest(H, k);
      Untouched(H, k, 0, x, 12, 0, i - 1);
      ShiftRest(x, 10 + 2 * i, RegAt(H, k, i - 1).h);
    }
  }

  /** After a reload at level `d` to `x`: the choices are the bits of `x`, two at a time from the top. */
  lemma PathIsReloadBits<K>(H: Hasher<K>, k: K, n: nat, d: nat, x: u64, r: u32, j: nat)
    requires RegAt(H, k, d) == Reg(x, r) && j < 32 && d + j + 1 < n && (j > 0 ==> Rest(x, 2 * j) != 0)
    ensures Path(H, k, n)[d + j + 1] == TwoBits(x, 2 * j)
  {
    hide Pow2, Rest, TwoBits;
    WholeRegister(x);
    var i := d + j + 1;
    PathPrefix(H, k, i + 1, n);
    assert Path(H, k, n)[i] == Path(H, k, n)[..i + 1][i];
    Untouched(H, k, d, x, 0, r, j);
    ShiftRest(x, 2 * j, RegAt(H, k, d + j).h);
  }

  lemma {:induction false} RestKept(x: u64, s: nat, t: nat)
    requires s + 2 * t <= 64 && Rest(x, s + 2 * t) != 0
    ensures Rest(x, s) != 0
    decreases t
  {
    hide Rest;
    if t > 0 {
      RestKept(x, s + 2, t - 1);
      RestShrinks(x, s);
    }
  }

  /** Bits read so far: the quotient after two more bits. */
  lemma QuotientStep(x: u64, s: nat)
    requires s + 2 <= 64
    ensures PositivePow(62 - s) && PositivePow(64 - s) && x / Pow2(62 - s) == 4 * (x / Pow2(64 - s)) + TwoBits(x, s)
  {
    hide Pow2;
    PowerPositive(62 - s);
    PowerPositive(64 - s);
    PowerSteps(s);
    QuarterQuotient(x, Pow2(62 - s));
  }

  predicate PositivePow(n: nat) {
    Pow2(n) > 0
  }

  lemma QuarterQuotient(x: nat, m: nat)
    requires m > 0
    ensures x / m == 4 * (x / (4 * m)) + x / m % 4
  {
    var q := x / m;
    assert x == q * m + x % m;
    Shuffle(q / 4, q % 4, m);
    Digit4(q % 4, m, x % m);
    Quotient4(x, 4 * m, q / 4, q % 4 * m + x % m);
  }

  lemma Quotient4(x: nat, a: nat, q: nat, r: nat)
    requires a > 0 && r < a && x == q * a + r
    ensures x / a == q
  {
    if x / a < q { MulMono(x / a + 1, q, a, a); }
    if x / a > q { MulMono(q + 1, x / a, a, a); }
  }

  lemma {:induction false} SameQuotients<K>(H: Hasher<K>, k: K, l: K, i: nat)
    requires H.digest(k) % 4 != 0 && H.digest(l) % 4 != 0 && Path(H, k, 27) == Path(H, l, 27) && i <= 26
    ensures PositivePow(52 - 2 * i) && H.digest(k) / Pow2(52 - 2 * i) == H.digest(l) / Pow2(52 - 2 * i)
    decreases i
  {
    hide Pow2, Path, Rest, TwoBits;
    var (x, y) := (H.digest(k), H.digest(l));
    if i == 0 {
      PowerPositive(52);
      Pow52();
      PathIsDigestBits(H, k, 27, 0);
      PathIsDigestBits(H, l, 27, 0);
    } else {
      SameQuotients(H, k, l, i - 1);
      LowBitsLeft(x, i);
      LowBitsLeft(y, i);
      PathIsDigestBits(H, k, 27, i);
      PathIsDigestBits(H, l, 27, i);
      QuotientStep(x, 10 + 2 * i);
      QuotientStep(y, 10 + 2 * i);
    }
  }

  lemma Pow52()
    ensures Pow2(52) == 0x10_0000_0000_0000
  {
    assert Pow2(12) == 4096 by { assert Pow2(4) == 16; Pow2Add(4, 4); Pow2Add(8, 4); }
    Pow2Add(52, 12);
    Pow2Of64();
  }

  lemma LowBitsLeft(x: u64, i: nat)
    requires x % 4 != 0 && 1 <= i <= 26
    ensures Rest(x, 10 + 2 * i) != 0
  {
    assert Rest(x, 62) == x % 4;
    hide Rest;
    RestKept(x, 10 + 2 * i, 26 - i);
  }

  /** Keys part within 27 choices exactly when their digests differ, unless the digests end in two zero bits
      (and the register may have been reloaded before). */
  lemma DigestsPart<K>(H: Hasher<K>, k: K, l: K)
    requires H.digest(k) % 4 != 0 && H.digest(l) % 4 != 0
    ensures Path(H, k, 27) == Path(H, l, 27) <==> H.digest(k) == H.digest(l)
  {
    hide Path, TwoBits, Rest;
    if Path(H, k, 27) == Path(H, l, 27) {
      SameQuotients(H, k, l, 26);
      assert Pow2(0) == 1;
    }
    if H.digest(k) == H.digest(l) {
      forall i: nat | i < 27 ensures Path(H, k, 27)[i] == Path(H, l, 27)[i] {
        if i > 0 { LowBitsLeft(H.digest(k), i); }
        PathIsDigestBits(H, k, 27, i);
        PathIsDigestBits(H, l, 27, i);
      }
    }
  }
}
