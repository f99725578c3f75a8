/**
 The wyhash-derived digests. `Wyhash` is the reference: it names which 16-byte blocks each mixing lane
 absorbs and which bytes end up in the final mix, with no fast path and no running pointer. The methods
 are the source's three loops (one seed, two seeds fused, 128-bit result) and are proved equal to it.
 */
module HashFunc {
  import opened Machine
  import opened Bytes
  import opened Words
  import opened Descent

  const WYP0: u64 := 0x2d358dccaa6c78a5
  const WYP1: u64 := 0x8bb84b93962eacc9
  const WYP2: u64 := 0x4b33a62ed433d4a3
  const WYP3: u64 := 0x4d5a2da51de1aa47

  /** Multiply to 128 bits and fold the halves. */
  function Mum(a: u64, b: u64): u64 {
    var w := Mul128(a, b);
    Xor(w.lo, w.hi)
  }

  /** Protected mix. */
  function Mix(a: u64, b: u64, s1: u64, s2: u64): u64 {
    var (x, y) := (Xor(Xor(a, s1), s2), Xor(b, s2));
    Xor(Xor(x, y), Mum(x, y))
  }

  /** Protected mix that also exposes the upper half of the product. */
  function Mix128(a: u64, b: u64, s1: u64, s2: u64): (u64, u64) {
    var (x, y) := (Xor(Xor(a, s1), s2), Xor(b, s2));
    var w := Mul128(x, y);
    (Xor(Xor(Xor(x, y), w.lo), w.hi), Xor(y, w.hi))
  }

  /** The 128-bit mix extends the 64-bit one. */
  lemma MixAgrees(a: u64, b: u64, s1: u64, s2: u64)
    ensures Mix128(a, b, s1, s2).0 == Mix(a, b, s1, s2)
  {
    hide XorBits, Mul128;
    var (x, y) := (Xor(Xor(a, s1), s2), Xor(b, s2));
    var w := Mul128(x, y);
    XorAssociative(Xor(x, y), w.lo, w.hi);
  }

  /** `(b << 32) | (b >> 32)`. */
  function SwapHalves(b: u64): u64 {
    b % 0x1_0000_0000 * 0x1_0000_0000 + b / 0x1_0000_0000
  }

  /** Two 32-bit words side by side. */
  function Join(hi: u32, lo: u32): u64 {
    hi * 0x1_0000_0000 + lo
  }

  /** One to three bytes: the first, the middle and the last. */
  function Load3(p: seq<u8>): u64
    requires 1 <= |p| <= 3
  {
    p[0] as int * 0x1_0000 + p[|p| / 2] as int * 0x100 + p[|p| - 1] as int
  }

  /** The two words of a key of at most 16 bytes. */
  function ShortWords(p: seq<u8>): (u64, u64)
    requires |p| <= 16
  {
    var n := |p|;
    if n >= 4 then
      var step := n / 8 * 4;
      (Join(Load32(p, 0), Load32(p, step)), Join(Load32(p, n - 4), Load32(p, n - 4 - step)))
    else if n > 0 then (Load3(p), 0)
    else (0, 0)
  }

  // -----------------------------------------------------------------------------
  // Reference.

  /** `n` blocks absorbed into one lane; block `j` starts at `base + j * stride`. */
  function Lane(p: seq<u8>, base: nat, stride: nat, n: nat, secret: u64, seed: u64): (state: u64)
    requires n > 0 ==> base + (n - 1) * stride + 16 <= |p|
    ensures n == 0 ==> state == seed
  {
    if n == 0 then seed
    else
      BlockInside(base, stride, n, |p|);
      var at := base + (n - 1) * stride;
      Mix(Load64(p, at), Load64(p, at + 8), secret, Lane(p, base, stride, n - 1, secret, seed))
  }

  lemma BlockInside(base: nat, stride: nat, n: nat, len: nat)
    requires n > 0 && base + (n - 1) * stride + 16 <= len
    ensures (n - 1) * stride >= 0
    ensures n > 1 ==> base + (n - 2) * stride + 16 <= len
  {
    if n > 1 { assert (n - 1) * stride == (n - 2) * stride + stride; }
  }

  /** How many 48-byte blocks a long key feeds to the three lanes. */
  function Blocks48(len: nat): (n: nat)
    requires len > 16
    ensures 48 * n < len && len - 48 * n <= 48
  {
    (len - 1) / 48
  }

  /** How many 16-byte blocks follow them. */
  function Blocks16(rest: nat): (n: nat)
    requires rest > 0
    ensures 16 * n < rest && rest - 16 * n <= 16
  {
    (rest - 1) / 16
  }

  /** Three lanes over the 48-byte blocks, folded together when there is at least one block. */
  function Absorb48(p: seq<u8>, n: nat, seed: u64): u64
    requires n * 48 <= |p|
  {
    if n == 0 then seed
    else Xor(Lane(p, 0, 48, n, WYP1, seed), Xor(Lane(p, 16, 48, n, WYP2, seed), Lane(p, 32, 48, n, WYP3, seed)))
  }

  /** The lane state after every block of a long key. */
  function Absorb(p: seq<u8>, seed: u64): u64
    requires |p| > 16
  {
    var n := Blocks48(|p|);
    Lane(p, 48 * n, 16, Blocks16(|p| - 48 * n), WYP1, Absorb48(p, n, seed))
  }

  /** What the final mix is applied to: two words and the seed state. */
  function Final(p: seq<u8>, seed: u64): (u64, u64, u64)
    requires |p| <= TWO_64 - 1
  {
    if |p| <= 16 then
      var (a, b) := ShortWords(p);
      (a, Xor(b, |p|), seed)
    else
      (Load64(p, |p| - 16), Xor(Load64(p, |p| - 8), |p|), Absorb(p, seed))
  }

  /** Keys are shorter than 2^64 bytes. */
  type Key = k: seq<u8> | |k| < 0x1_0000_0000_0000_0000

  function Wyhash(p: Key, seed: u64): u64 {
    var (a, b, s) := Final(p, seed);
    Mix(a, b, WYP1, s)
  }

  function Wyhash128(p: Key, seed: u64): (u64, u64) {
    var (a, b, s) := Final(p, seed);
    Mix128(a, b, WYP1, s)
  }

  /** "Two hashes for the price of one": the first half of the 128-bit hash is the 64-bit hash. */
  lemma Wyhash128Agrees(p: Key, seed: u64)
    ensures Wyhash128(p, seed).0 == Wyhash(p, seed)
  {
    var (a, b, s) := Final(p, seed);
    MixAgrees(a, b, WYP1, s);
  }

  // -----------------------------------------------------------------------------
  // Eight-byte keys.

  /** The eight-byte fast path loads one word instead of four. */
  lemma FastPath(p: Key)
    requires |p| == 8
    ensures ShortWords(p) == (SwapHalves(Load64(p, 0)), Load64(p, 0))
  {
    hide Load32, SwapHalves, Join;
    SwapJoined(Load32(p, 4), Load32(p, 0));
    EightByteWords(p);
  }

  lemma EightByteWords(p: Key)
    requires |p| == 8
    ensures ShortWords(p) == (Join(Load32(p, 0), Load32(p, 4)), Join(Load32(p, 4), Load32(p, 0)))
  {
    hide Load32, Join;
  }

  lemma SwapJoined(hi: u32, lo: u32)
    ensures SwapHalves(lo + hi * TWO_32) == Join(lo, hi) && lo + hi * TWO_32 == Join(hi, lo)
  {
    var w := lo + hi * 0x1_0000_0000;
    assert w / 0x1_0000_0000 == hi && w % 0x1_0000_0000 == lo;
  }

  /** Hash of an eight-byte key held in a register. */
  function HashU64(key: u64, seed: u64): u64 {
    Mix(SwapHalves(key), Xor(key, 8), WYP1, seed)
  }

  function HashU64Wide(key: u64): (u64, u64) {
    Mix128(SwapHalves(key), Xor(key, 8), WYP1, WYP0)
  }

  lemma RegisterHashAgrees(p: Key, seed: u64)
    requires |p| == 8
    ensures HashU64(Load64(p, 0), seed) == Wyhash(p, seed)
    ensures HashU64Wide(Load64(p, 0)) == Wyhash128(p, WYP0)
  {
    hide Mix, Mix128, XorBits;
    FastPath(p);
  }

  // -----------------------------------------------------------------------------
  // The source's loops.

  /** One more block in a lane. */
  lemma LaneNext(p: seq<u8>, base: nat, stride: nat, n: nat, at: nat, secret: u64, seed: u64)
    requires at == base + n * stride && at + 16 <= |p| && stride >= 16
    ensures n > 0 ==> base + (n - 1) * stride + 16 <= |p|
    ensures base + n * stride + 16 <= |p|
    ensures Lane(p, base, stride, n + 1, secret, seed)
         == Mix(Load64(p, at), Load64(p, at + 8), secret, Lane(p, base, stride, n, secret, seed))
  {
    hide Mix, Load64;
    if n > 0 { BlockInside(base, stride, n + 1, |p|); }
  }

  /** One more 48-byte block in the three lanes. */
  lemma LanesNext(p: seq<u8>, n: nat, off: nat, seed: u64)
    requires off == 48 * n && off + 48 <= |p|
    ensures n > 0 ==> 48 * (n - 1) + 48 <= |p|
    ensures Lane(p, 0, 48, n + 1, WYP1, seed) == Mix(Load64(p, off), Load64(p, off + 8), WYP1, Lane(p, 0, 48, n, WYP1, seed))
    ensures Lane(p, 16, 48, n + 1, WYP2, seed)
         == Mix(Load64(p, off + 16), Load64(p, off + 24), WYP2, Lane(p, 16, 48, n, WYP2, seed))
    ensures Lane(p, 32, 48, n + 1, WYP3, seed)
         == Mix(Load64(p, off + 32), Load64(p, off + 40), WYP3, Lane(p, 32, 48, n, WYP3, seed))
  {
    hide Mix, Load64, Lane;
    LaneNext(p, 0, 48, n, off, WYP1, seed);
    LaneNext(p, 16, 48, n, off + 16, WYP2, seed);
    LaneNext(p, 32, 48, n, off + 32, WYP3, seed);
  }

  /** The loads of a key of at most 16 bytes, the same in all three loops. */
  method LoadShort(p: Key) returns (a: u64, b: u64)
    requires |p| <= 16
    ensures (a, b) == ShortWords(p)
  {
    hide Load32;
    var len := |p|;
    if len >= 4 {
      var gap := len / 8 * 4;
      a := Load32(p, 0) * 0x1_0000_0000 + Load32(p, gap);
      b := Load32(p, len - 4) * 0x1_0000_0000 + Load32(p, len - 4 - gap);
    } else if len > 0 {
      a, b := p[0] as int * 0x1_0000 + p[len / 2] as int * 0x100 + p[len - 1] as int, 0;
    } else {
      a, b := 0, 0;
    }
  }

  /** `rgm_hash_wyhash_seeded`. */
  method WyhashSeeded(p: Key, seed0: u64) returns (h: u64)
    ensures h == Wyhash(p, seed0)
  {
    hide Mix, XorBits, Lane, Load32, Load64, ShortWords, SwapHalves;
    var len := |p|;
    var seed := seed0;
    var a, b;
    if len == 8 {
      FastPath(p);
      b := Load64(p, 0);
      a := SwapHalves(b);
      return Mix(a, Xor(b, 8), WYP1, seed);
    }
    if len <= 16 {
      a, b := LoadShort(p);
    } else {
      var off, i := 0, len;
      ghost var n := 0;
      if i > 48 {
        var see1, see2 := seed, seed;
        while i > 48
          invariant off == 48 * n && off + i == len && i > 0
          invariant seed == Lane(p, 0, 48, n, WYP1, seed0)
          invariant see1 == Lane(p, 16, 48, n, WYP2, seed0)
          invariant see2 == Lane(p, 32, 48, n, WYP3, seed0)
        {
          LanesNext(p, n, off, seed0);
          seed := Mix(Load64(p, off), Load64(p, off + 8), WYP1, seed);
          see1 := Mix(Load64(p, off + 16), Load64(p, off + 24), WYP2, see1);
          see2 := Mix(Load64(p, off + 32), Load64(p, off + 40), WYP3, see2);
          off, i, n := off + 48, i - 48, n + 1;
        }
        seed := Xor(seed, Xor(see1, see2));
      }
      assert n == Blocks48(len) && seed == Absorb48(p, n, seed0);
      ghost var (start, seed48, m) := (off, seed, 0);
      while i > 16
        invariant off == start + 16 * m && off + i == len && i > 0
        invariant seed == Lane(p, start, 16, m, WYP1, seed48)
      {
        LaneNext(p, start, 16, m, off, WYP1, seed48);
        seed := Mix(Load64(p, off), Load64(p, off + 8), WYP1, seed);
        off, i, m := off + 16, i - 16, m + 1;
      }
      assert m == Blocks16(len - start);
      a := Load64(p, off + i - 16);
      b := Load64(p, off + i - 8);
    }
    h := Mix(a, Xor(b, len), WYP1, seed);
  }

  /** `rgm_hash_wyhash_dual_seeded`: one pass over the key feeds both seeds. */
  method WyhashDualSeeded(p: Key, seedA: u64, seedB: u64) returns (h1: u64, h2: u64)
    ensures h1 == Wyhash(p, seedA) && h2 == Wyhash(p, seedB)
  {
    hide Mix, XorBits, Lane, Load32, Load64, ShortWords, SwapHalves;
    var len := |p|;
    var seed1, seed2 := seedA, seedB;
    var a, b;
    if len == 8 {
      FastPath(p);
      b := Load64(p, 0);
      a := SwapHalves(b);
      return Mix(a, Xor(b, 8), WYP1, seed1), Mix(a, Xor(b, 8), WYP1, seed2);
    }
    if len <= 16 {
      a, b := LoadShort(p);
    } else {
      var off, i := 0, len;
      ghost var n := 0;
      if i > 48 {
        var see1a, see2a := seed1, seed1;
        var see1b, see2b := seed2, seed2;
        while i > 48
          invariant off == 48 * n && off + i == len && i > 0
          invariant seed1 == Lane(p, 0, 48, n, WYP1, seedA) && seed2 == Lane(p, 0, 48, n, WYP1, seedB)
          invariant see1a == Lane(p, 16, 48, n, WYP2, seedA) && see1b == Lane(p, 16, 48, n, WYP2, seedB)
          invariant see2a == Lane(p, 32, 48, n, WYP3, seedA) && see2b == Lane(p, 32, 48, n, WYP3, seedB)
        {
          LanesNext(p, n, off, seedA);
          LanesNext(p, n, off, seedB);
          var l0, l1 := Load64(p, off), Load64(p, off + 8);
          var l2, l3 := Load64(p, off + 16), Load64(p, off + 24);
          var l4, l5 := Load64(p, off + 32), Load64(p, off + 40);
          seed1 := Mix(l0, l1, WYP1, seed1);
          see1a := Mix(l2, l3, WYP2, see1a);
          see2a := Mix(l4, l5, WYP3, see2a);
          seed2 := Mix(l0, l1, WYP1, seed2);
          see1b := Mix(l2, l3, WYP2, see1b);
          see2b := Mix(l4, l5, WYP3, see2b);
          off, i, n := off + 48, i - 48, n + 1;
        }
        seed1 := Xor(seed1, Xor(see1a, see2a));
        seed2 := Xor(seed2, Xor(see1b, see2b));
      }
      assert n == Blocks48(len) && seed1 == Absorb48(p, n, seedA) && seed2 == Absorb48(p, n, seedB);
      ghost var (start, first, second, m) := (off, seed1, seed2, 0);
      while i > 16
        invariant off == start + 16 * m && off + i == len && i > 0
        invariant seed1 == Lane(p, start, 16, m, WYP1, first) && seed2 == Lane(p, start, 16, m, WYP1, second)
      {
        LaneNext(p, start, 16, m, off, WYP1, first);
        LaneNext(p, start, 16, m, off, WYP1, second);
        var l0, l1 := Load64(p, off), Load64(p, off + 8);
        seed1 := Mix(l0, l1, WYP1, seed1);
        seed2 := Mix(l0, l1, WYP1, seed2);
        off, i, m := off + 16, i - 16, m + 1;
      }
      assert m == Blocks16(len - start);
      a := Load64(p, off + i - 16);
      b := Load64(p, off + i - 8);
    }
    h1 := Mix(a, Xor(b, len), WYP1, seed1);
    h2 := Mix(a, Xor(b, len), WYP1, seed2);
  }

  /** `rgm_hash_wyhash_128_seeded`: the same loops with the wide final mix. */
  method Wyhash128Seeded(p: Key, seed0: u64) returns (h1: u64, h2: u64)
    ensures (h1, h2) == Wyhash128(p, seed0)
    ensures h1 == Wyhash(p, seed0)
  {
    hide Mix, Mix128, XorBits, Lane, Load32, Load64, ShortWords, SwapHalves;
    Wyhash128Agrees(p, seed0);
    var len := |p|;
    var seed := seed0;
    var a, b;
    if len == 8 {
      FastPath(p);
      b := Load64(p, 0);
      a := SwapHalves(b);
      var h := Mix128(a, Xor(b, 8), WYP1, seed);
      return h.0, h.1;
    }
    if len <= 16 {
      a, b := LoadShort(p);
    } else {
      var off, i := 0, len;
      ghost var n := 0;
      if i > 48 {
        var see1, see2 := seed, seed;
        while i > 48
          invariant off == 48 * n && off + i == len && i > 0
          invariant seed == Lane(p, 0, 48, n, WYP1, seed0)
          invariant see1 == Lane(p, 16, 48, n, WYP2, seed0)
          invariant see2 == Lane(p, 32, 48, n, WYP3, seed0)
        {
          LanesNext(p, n, off, seed0);
          seed := Mix(Load64(p, off), Load64(p, off + 8), WYP1, seed);
          see1 := Mix(Load64(p, off + 16), Load64(p, off + 24), WYP2, see1);
          see2 := Mix(Load64(p, off + 32), Load64(p, off + 40), WYP3, see2);
          off, i, n := off + 48, i - 48, n + 1;
        }
        seed := Xor(seed, Xor(see1, see2));
      }
      assert n == Blocks48(len) && seed == Absorb48(p, n, seed0);
      ghost var (start, seed48, m) := (off, seed, 0);
      while i > 16
        invariant off == start + 16 * m && off + i == len && i > 0
        invariant seed == Lane(p, start, 16, m, WYP1, seed48)
      {
        LaneNext(p, start, 16, m, off, WYP1, seed48);
        seed := Mix(Load64(p, off), Load64(p, off + 8), WYP1, seed);
        off, i, m := off + 16, i - 16, m + 1;
      }
      assert m == Blocks16(len - start);
      a := Load64(p, off + i - 16);
      b := Load64(p, off + i - 8);
    }
    var h := Mix128(a, Xor(b, len), WYP1, seed);
    h1, h2 := h.0, h.1;
  }

  // -----------------------------------------------------------------------------
  // Reseeding.

  /** Seed of the `round`-th reseed; round 0 is the base digest's seed. */
  function ReseedSeed(round: u32): u64 {
    Xor(WYP0, WYP3 * round % 0x1_0000_0000_0000_0000)
  }

  lemma {:induction false} XorWithZero(a: nat)
    ensures XorBits(a, 0) == a
  {
    if a != 0 {
      XorWithZero(a / 2);
    }
  }

  lemma {:induction false} XorSelf(a: nat)
    ensures XorBits(a, a) == 0
  {
    if a != 0 { XorSelf(a / 2); }
  }

  lemma {:induction false} XorSwap(a: nat, b: nat)
    ensures XorBits(a, b) == XorBits(b, a)
    decreases a + b
  {
    if a != 0 || b != 0 { XorSwap(a / 2, b / 2); }
  }

  lemma XorTwice(a: nat, b: nat)
    ensures XorBits(a, XorBits(a, b)) == b
  {
    hide XorBits;
    XorAssociative(a, a, b);
    XorSelf(a);
    XorSwap(0, b);
    XorWithZero(b);
  }

  /** No two rounds share a seed, and round 0 alone uses the base seed. */
  lemma ReseedSeedsDistinct(r: u32, q: u32)
    ensures ReseedSeed(r) == ReseedSeed(q) <==> r == q
    ensures ReseedSeed(r) == WYP0 <==> r == 0
    ensures Xor(0x2d358dccaa6c78a5, ReseedSeed(r)) == 0x4d5a2da51de1aa47 * r % 0x1_0000_0000_0000_0000
  {
    hide XorBits;
    XorWithZero(WYP0);
    XorTwice(WYP0, WYP3 * r % 0x1_0000_0000_0000_0000);
    if ReseedSeed(r) == ReseedSeed(q) { SameSeed(r, q); }
    if ReseedSeed(r) == WYP0 { SameSeed(r, 0); }
  }

  lemma SameSeed(r: u32, q: u32)
    requires ReseedSeed(r) == ReseedSeed(q)
    ensures r == q
  {
    hide XorBits;
    XorCancel(WYP0, WYP3 * r % 0x1_0000_0000_0000_0000, WYP3 * q % 0x1_0000_0000_0000_0000);
    Pow2Of64();
    OddMultiplier(WYP3, r, q, WYP3 * r / 0x1_0000_0000_0000_0000 - WYP3 * q / 0x1_0000_0000_0000_0000, 64);
  }

  /** HashIndex has no key to rehash and remixes the digest pair instead. */
  function ReseedPair(h: (u64, u64), round: u32): u64 {
    Mix(Xor(h.0, WYP3 * round % 0x1_0000_0000_0000_0000), h.1, WYP1, WYP2)
  }

  /** Both kinds of reseed run through the same schedule of seeds; round 0 would remix the bare pair. */
  lemma PairReseedSeeds(h: (u64, u64), round: u32)
    ensures ReseedPair(h, round) == Mix(Xor(h.0, Xor(0x2d358dccaa6c78a5, ReseedSeed(round))), h.1, 0x8bb84b93962eacc9, 0x4b33a62ed433d4a3)
    ensures ReseedPair(h, 0) == Mix(h.0, h.1, 0x8bb84b93962eacc9, 0x4b33a62ed433d4a3)
  {
    hide Mix, XorBits;
    XorTwice(WYP0, WYP3 * round % 0x1_0000_0000_0000_0000);
    XorWithZero(h.0);
  }

  const BYTE_KEYS: Hasher<Key> := Hasher(p => Wyhash(p, WYP0), (p, r) => Wyhash(p, ReseedSeed(r)))
  const WORD_KEYS: Hasher<u64> := Hasher(k => HashU64(k, WYP0), (k, r) => HashU64(k, ReseedSeed(r)))
  const PAIR_KEYS: Hasher<(u64, u64)> := Hasher((h: (u64, u64)) => h.0, (h, r) => ReseedPair(h, r))

  /** An eight-byte key put through one API is found through the other: both descents make the same
      choices at every level, after any number of reseeds. */
  lemma WordAndByteDescentsAgree(p: Key, n: nat)
    requires |p| == 8
    ensures WORD_KEYS.digest(Load64(p, 0)) == BYTE_KEYS.digest(p)
    ensures Path(WORD_KEYS, Load64(p, 0), n) == Path(BYTE_KEYS, p, n)
    ensures RegAt(WORD_KEYS, Load64(p, 0), n) == RegAt(BYTE_KEYS, p, n)
  {
    RegisterHashAgrees(p, WYP0);
    forall r: u32 ensures WORD_KEYS.reseed(Load64(p, 0), r) == BYTE_KEYS.reseed(p, r) {
      RegisterHashAgrees(p, ReseedSeed(r));
    }
    SameHashSamePath(WORD_KEYS, Load64(p, 0), BYTE_KEYS, p, n);
  }
}
