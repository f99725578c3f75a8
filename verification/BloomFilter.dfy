/**
 The blocked Bloom filter: one 512-bit block per key, `k` bits inside it.

 A bit of the filter is numbered across the whole array. `Places` is the set of bits that a digest pair
 stands for; Add sets exactly those, Test asks whether they are all set.
 */
module BloomFilter {
  import opened Machine
  import opened Bytes
  import opened Words
  import opened Bits
  import opened HashFunc

  const MAX_BLOCKS: u32 := 0x1000_0000

  datatype Status = OK | INVALID | OVERFLOW | TOO_SMALL

  // -----------------------------------------------------------------------------
  // Positions inside a block.

  lemma Low9(a: nat)
    ensures AndBits(a, 0x1FF) == a % 512
  {
    MaskIsMod(a, 9);
    assert Pow2(9) == 512 by { assert Pow2(3) == 8; assert Pow2(6) == 64; }
  }

  lemma OddBelow(x: nat)
    requires x < 512
    ensures OrBits(x, 1) % 2 == 1 && OrBits(x, 1) < 512
  {
    hide OrBits;
    OrOne(x);
  }

  function First(h2: u64): (pos: nat)
    ensures pos < 512
  {
    Low9(h2);
    AndBits(h2, 0x1FF)
  }

  /** Bits 32 to 40 of the second digest, forced odd. */
  function Delta(h2: u64): (delta: nat)
    ensures delta % 2 == 1 && delta < 512
  {
    Low9(Shr(h2, 32));
    OddBelow(AndBits(Shr(h2, 32), 0x1FF));
    OrBits(AndBits(Shr(h2, 32), 0x1FF), 1)
  }

  /** The `i`-th position. */
  function Pos(h2: u64, i: nat): (pos: nat)
    ensures pos < 512
  {
    StepsNonNegative(i, Delta(h2));
    (First(h2) + i * Delta(h2)) % 512
  }

  lemma StepsNonNegative(i: nat, d: nat)
    ensures i * d >= 0
  {
  }

  /** The running position of the loops. */
  lemma NextPos(h2: u64, i: nat)
    ensures Pos(h2, 0) == First(h2)
    ensures Pos(h2, i + 1) == (Pos(h2, i) + Delta(h2)) % 512
  {
    var d := Delta(h2);
    StepsNonNegative(i, d);
    StepsNonNegative(i + 1, d);
    assert (i + 1) * d == i * d + d;
    ModSum(First(h2) + i * d, d);
  }

  /** The masked sum of the loops is that position. */
  lemma StepPos(h2: u64, i: nat)
    ensures AndBits(Pos(h2, i) + Delta(h2), 0x1FF) == Pos(h2, i + 1)
  {
    Low9(Pos(h2, i) + Delta(h2));
    NextPos(h2, i);
  }

  lemma ModSum(x: nat, d: nat)
    ensures (x % 512 + d) % 512 == (x + d) % 512
  {
  }

  /** No position comes twice in the first 512: the step is odd. */
  lemma PositionsDistinct(h2: u64, i: nat, j: nat)
    requires i < j < 512
    ensures Pos(h2, i) != Pos(h2, j)
  {
    if Pos(h2, i) == Pos(h2, j) {
      var (s, d) := (First(h2), Delta(h2));
      var (x, y) := (s + i * d, s + j * d);
      assert Pow2(9) == 512 by { assert Pow2(3) == 8; assert Pow2(6) == 64; }
      assert d * j - d * i == 512 * (y / 512 - x / 512) by { assert x % 512 == y % 512; }
      OddMultiplier(d, j, i, y / 512 - x / 512, 9);
    }
  }

  /** Position `p` is among the first `k`. */
  ghost predicate Chosen(h2: u64, k: nat, p: nat) {
    exists i: nat :: i < k && Pos(h2, i) == p
  }

  ghost function Firsts(h2: u64, k: nat): set<nat> {
    set p: nat | p < 512 && Chosen(h2, k, p)
  }

  /** A key has exactly `k` different bits in its block, and 512 of them are the whole block. */
  lemma {:induction false} PositionsCount(h2: u64, k: nat)
    requires k <= 512
    ensures |Firsts(h2, k)| == k
    decreases k
  {
    if k == 0 {
      assert Firsts(h2, 0) == {};
    } else {
      PositionsCount(h2, k - 1);
      var p := Pos(h2, k - 1);
      if p in Firsts(h2, k - 1) {
        var i: nat :| i < k - 1 && Pos(h2, i) == p;
        PositionsDistinct(h2, i, k - 1);
      }
      ChosenNext(h2, k - 1);
      assert Firsts(h2, k) == Firsts(h2, k - 1) + {p};
    }
  }

  lemma ChosenNext(h2: u64, k: nat)
    ensures forall p: nat :: Chosen(h2, k + 1, p) <==> Chosen(h2, k, p) || p == Pos(h2, k)
  {
    hide Pos;
    forall p: nat ensures Chosen(h2, k + 1, p) <==> Chosen(h2, k, p) || p == Pos(h2, k) {
      if Chosen(h2, k, p) {
        var i: nat :| i < k && Pos(h2, i) == p;
        assert i < k + 1;
      }
      if p == Pos(h2, k) { assert k < k + 1; }
    }
  }

  // -----------------------------------------------------------------------------
  // Sizing.

  ghost predicate AnyBit(a: nat, lo: nat, hi: nat) {
    exists u: nat :: lo <= u < hi && Bit(a, u)
  }

  lemma AnyBitSplit(a: nat, lo: nat, mid: nat, hi: nat)
    requires lo <= mid <= hi
    ensures AnyBit(a, lo, hi) <==> AnyBit(a, lo, mid) || AnyBit(a, mid, hi)
  {
    hide Bit;
  }

  /** `b` is `b0` with every set bit smeared over the `s - 1` places below it. */
  ghost predicate Smeared(b0: nat, b: nat, s: nat) {
    forall i: nat :: Bit(b, i) <==> AnyBit(b0, i, i + s)
  }

  lemma SmearStart(b0: nat)
    ensures Smeared(b0, b0, 1)
  {
    hide Bit;
  }

  /** `b |= b >> s`. */
  lemma SmearStep(b0: nat, b: nat, s: nat)
    requires Smeared(b0, b, s)
    ensures Smeared(b0, OrBits(b, Shr(b, s)), 2 * s)
  {
    hide Bit, OrBits, Shr, AnyBit;
    forall i: nat ensures Bit(OrBits(b, Shr(b, s)), i) <==> AnyBit(b0, i, i + 2 * s) {
      BitOr(b, Shr(b, s), i);
      BitShift(b, s, i);
      AnyBitSplit(b0, i, i + s, i + 2 * s);
      assert Bit(b, i + s) <==> AnyBit(b0, i + s, i + s + s);
    }
  }

  /** Smearing a number in `[2^n, 2^(n+1))` far enough gives `2^(n+1) - 1`. */
  lemma SmearedIsOnes(b0: nat, b: nat, s: nat, n: nat)
    requires Pow2(n) <= b0 < Pow2(n + 1) && n < s && Smeared(b0, b, s)
    ensures b + 1 == Pow2(n + 1)
  {
    hide Bit, Pow2;
    BitOfOnes(n + 1, 0);
    TopBit(b0, n);
    forall i: nat ensures Bit(b, i) <==> Bit(Pow2(n + 1) - 1, i) {
      BitOfOnes(n + 1, i);
      if i <= n {
        assert AnyBit(b0, i, i + s);
      } else if Bit(b, i) {
        var u: nat :| i <= u < i + s && Bit(b0, u);
        NoHighBits(b0, n + 1, u);
      }
    }
    SameBits(b, Pow2(n + 1) - 1);
  }

  /** `rgm_bloom_round_blocks`: the smallest power of two that holds `bits`, or 0 when there is none up to
      the limit. */
  method RoundBlocks(bits: u64) returns (r: u32)
    ensures r == 0 <==> bits == 0 || bits > 512 * MAX_BLOCKS
    ensures r != 0 ==> exists n: nat :: n <= 28 && r == Pow2(n) && bits <= 512 * r && (n > 0 ==> 512 * Pow2(n - 1) < bits)
  {
    assert Pow2(28) == MAX_BLOCKS by { TwoTo28(); }
    if bits == 0 {
      return 0;
    }
    if bits > 0xFFFF_FFFF_FFFF_FFFF - 511 {
      return 0;
    }
    var blocks := (bits + 511) / 512;
    if blocks > MAX_BLOCKS {
      return 0;
    }
    if blocks <= 1 {
      assert Pow2(0) == 1;
      return 1;
    }
    ghost var n := Bracket(blocks - 1, 28);
    var b := SmearDown(blocks - 1, n);
    Powers28(n + 1);
    hide Pow2;
    return b + 1;
  }

  /** The bit-smearing steps. */
  method SmearDown(b0: nat, ghost n: nat) returns (b: nat)
    requires Pow2(n) <= b0 < Pow2(n + 1) && n < 32
    ensures b + 1 == Pow2(n + 1)
  {
    hide Pow2, Bit, OrBits, Shr, Smeared;
    b := b0;
    SmearStart(b0);
    SmearStep(b0, b, 1);
    b := OrBits(b, Shr(b, 1));
    SmearStep(b0, b, 2);
    b := OrBits(b, Shr(b, 2));
    SmearStep(b0, b, 4);
    b := OrBits(b, Shr(b, 4));
    SmearStep(b0, b, 8);
    b := OrBits(b, Shr(b, 8));
    SmearStep(b0, b, 16);
    b := OrBits(b, Shr(b, 16));
    SmearedIsOnes(b0, b, 32, n);
  }

  lemma TwoTo28()
    ensures Pow2(28) == 0x1000_0000
  {
    assert Pow2(4) == 16 by { assert Pow2(2) == 4; }
    Pow2Add(4, 4);
    Pow2Add(8, 8);
    Pow2Add(8, 4);
    Pow2Add(16, 12);
  }

  lemma {:induction false} Powers28(n: nat)
    requires n <= 28
    ensures 0 < Pow2(n) <= 0x1000_0000
  {
    TwoTo28();
    PowMono(n, 28);
  }

  lemma {:induction false} PowMono(m: nat, n: nat)
    requires m <= n
    ensures 0 < Pow2(m) <= Pow2(n)
    decreases n
  {
    if m < n { PowMono(m, n - 1); } else if n > 0 { PowMono(m - 1, n - 1); }
  }

  // -----------------------------------------------------------------------------
  // The bit array.

  ghost predicate BitAt(words: seq<u64>, b: nat) {
    b < 64 * |words| && Bit(words[b / 64], b % 64)
  }

  /** The bits of one key in a filter of `blocks` blocks. */
  ghost predicate Place(blocks: nat, k: nat, h1: u64, h2: u64, b: nat)
    requires blocks > 0
  {
    b / 512 == h1 % blocks && Chosen(h2, k, b % 512)
  }

  /** The first word of a key's block. */
  function BlockAt(blocks: nat, h1: u64): nat
    requires blocks > 0
  {
    8 * (h1 % blocks)
  }

  /** `new` is `old` with exactly the key's bits added. */
  ghost predicate Added(before: seq<u64>, after: seq<u64>, blocks: nat, k: nat, h1: u64, h2: u64)
    requires blocks > 0
  {
    && |after| == |before|
    && forall b: nat :: b < 64 * |before| ==> (BitAt(after, b) <==> BitAt(before, b) || Place(blocks, k, h1, h2, b))
  }

  ghost predicate AllSet(words: seq<u64>, blocks: nat, k: nat, h1: u64, h2: u64)
    requires blocks > 0
  {
    forall b: nat :: Place(blocks, k, h1, h2, b) ==> BitAt(words, b)
  }

  /** Bit `64 w + c` is bit `c` of word `w`. */
  lemma WordBit(words: seq<u64>, w: nat, c: nat)
    requires w < |words| && c < 64
    ensures BitAt(words, 64 * w + c) <==> Bit(words[w], c)
  {
    DivSmall(w, 64, c);
  }

  lemma DivSmall(q: nat, d: nat, r: nat)
    requires r < d
    ensures (d * q + r) / d == q && (d * q + r) % d == r
  {
    Quotient(d * q + r, d, q, r);
    assert d * q + r == d * ((d * q + r) / d) + (d * q + r) % d;
  }

  /** `mask` has the key's bits of word `w` of its block. */
  ghost predicate MaskOf(h2: u64, k: nat, w: nat, mask: u64) {
    forall c: nat :: c < 64 ==> (Bit(mask, c) <==> Chosen(h2, k, 64 * w + c))
  }

  lemma MaskStart(h2: u64, w: nat)
    ensures MaskOf(h2, 0, w, 0)
  {
    forall c: nat | c < 64 ensures !Bit(0, c) { ZeroHasNoBits(c); }
  }

  /** One turn of the loop that collects the masks. */
  lemma MaskStep(h2: u64, k: nat, w: nat, mask: u64)
    requires MaskOf(h2, k, w, mask)
    ensures var p := Pos(h2, k);
      && Pow2(p % 64) < 0x1_0000_0000_0000_0000
      && MaskOf(h2, k + 1, w, if p / 64 == w then Or(mask, Pow2(p % 64)) else mask)
  {
    hide Bit, Pos, Pow2, OrBits, Chosen;
    var p := Pos(h2, k);
    BelowTop(p % 64);
    var next := if p / 64 == w then Or(mask, Pow2(p % 64)) else mask;
    forall c: nat | c < 64 ensures Bit(next, c) <==> Chosen(h2, k + 1, 64 * w + c) {
      MaskStepBit(h2, k, w, mask, c);
    }
  }

  lemma MaskStepBit(h2: u64, k: nat, w: nat, mask: u64, c: nat)
    requires MaskOf(h2, k, w, mask) && c < 64
    ensures var p := Pos(h2, k);
      && Pow2(p % 64) < 0x1_0000_0000_0000_0000
      && (Bit(if p / 64 == w then Or(mask, Pow2(p % 64)) else mask, c) <==> Chosen(h2, k + 1, 64 * w + c))
  {
    hide Bit, Pos, Pow2, OrBits, Chosen;
    var p := Pos(h2, k);
    BelowTop(p % 64);
    ChosenNext(h2, k);
    assert Chosen(h2, k + 1, 64 * w + c) <==> Chosen(h2, k, 64 * w + c) || p == 64 * w + c;
    DivSmall(w, 64, c);
    SamePlace(p, w, c);
    if p / 64 == w {
      BitOr(mask, Pow2(p % 64), c);
      BitOfPow2(p % 64, c);
    }
  }

  lemma SamePlace(p: nat, w: nat, c: nat)
    requires c < 64
    ensures p == 64 * w + c <==> p / 64 == w && p % 64 == c
  {
    DivSmall(w, 64, c);
  }

  lemma BelowTop(n: nat)
    requires n < 64
    ensures Pow2(n) < 0x1_0000_0000_0000_0000
  {
    PowMono(n, 63);
    Pow2Of64();
  }

  /** A word of a block, with the rest of the filter around it. */
  lemma BlockBit(blocks: nat, k: nat, h1: u64, h2: u64, w: nat, c: nat)
    requires blocks > 0 && w < 8 && c < 64
    ensures Place(blocks, k, h1, h2, 64 * (8 * (h1 % blocks) + w) + c) <==> Chosen(h2, k, 64 * w + c)
  {
    hide Chosen;
    var q := h1 % blocks;
    assert 64 * (8 * q + w) + c == 512 * q + (64 * w + c);
    DivSmall(q, 512, 64 * w + c);
  }

  lemma OtherBlock(blocks: nat, k: nat, h1: u64, h2: u64, b: nat)
    requires blocks > 0 && !(8 * (h1 % blocks) <= b / 64 < 8 * (h1 % blocks) + 8)
    ensures !Place(blocks, k, h1, h2, b)
  {
    hide Chosen;
    var (q, r) := (b / 512, b % 512);
    assert b == 64 * (8 * q + r / 64) + r % 64;
    DivSmall(8 * q + r / 64, 64, r % 64);
  }

  /** ORing the eight masks into the key's block adds exactly its bits. */
  lemma MasksAdd(before: seq<u64>, after: seq<u64>, masks: seq<u64>, blocks: nat, k: nat, h1: u64, h2: u64)
    requires blocks > 0 && 8 * blocks <= |before| == |after| && |masks| == 8
    requires forall w: nat :: w < 8 ==> MaskOf(h2, k, w, masks[w])
    requires forall i: nat :: i < |before| ==>
      after[i] == if 8 * (h1 % blocks) <= i < 8 * (h1 % blocks) + 8 then Or(before[i], masks[i - 8 * (h1 % blocks)]) else before[i]
    ensures Added(before, after, blocks, k, h1, h2)
  {
    hide Bit, OrBits, Place, MaskOf, Chosen;
    var q := h1 % blocks;
    forall b: nat | b < 64 * |before| ensures BitAt(after, b) <==> BitAt(before, b) || Place(blocks, k, h1, h2, b) {
      var (i, c) := (b / 64, b % 64);
      if 8 * q <= i < 8 * q + 8 {
        BitOr(before[i], masks[i - 8 * q], c);
        BlockBit(blocks, k, h1, h2, i - 8 * q, c);
        MaskBit(h2, k, i - 8 * q, masks[i - 8 * q], c);
      } else {
        OtherBlock(blocks, k, h1, h2, b);
      }
    }
  }

  lemma MaskBit(h2: u64, k: nat, w: nat, mask: u64, c: nat)
    requires MaskOf(h2, k, w, mask) && c < 64
    ensures Bit(mask, c) <==> Chosen(h2, k, 64 * w + c)
  {
  }

  /** Where every bit of the mask is set already, the OR can be skipped. */
  lemma OrCovered(word: u64, mask: u64)
    ensures AndBits(word, mask) == mask ==> Or(word, mask) == word
    ensures mask == 0 ==> Or(word, mask) == word
  {
    hide Bit, OrBits, AndBits;
    CoversMask(word, mask);
    if AndBits(word, mask) == mask {
      forall i: nat ensures Bit(OrBits(word, mask), i) <==> Bit(word, i) { BitOr(word, mask, i); }
      SameBits(OrBits(word, mask), word);
    }
    OrZero(word);
  }

  // -----------------------------------------------------------------------------
  // The filter object.

  class BloomFilter {
    var bits: array<u64>
    var blockMask: u64
    var blockCount: u32
    var hashCount: u32

    /** Zero-initialised: not usable yet. */
    constructor () {
      bits := new u64[0];
      blockMask, blockCount, hashCount := 0, 0, 0;
    }

    ghost predicate Valid()
      reads this
    {
      && (exists n: nat :: n <= 28 && blockCount == Pow2(n))
      && 0 < blockCount && blockMask == blockCount - 1
      && 0 < hashCount <= 512
      && 8 * blockCount <= bits.Length
    }

    ghost function Words(): seq<u64>
      requires Valid()
      reads this, bits
    {
      bits[..8 * blockCount]
    }

    /** The word index where the key's block starts. */
    method Block(h1: u64) returns (at: nat)
      requires Valid()
      ensures at == BlockAt(blockCount, h1) && at + 8 <= 8 * blockCount
    {
      ghost var n: nat :| n <= 28 && blockCount == Pow2(n);
      MaskIsMod(h1, n);
      at := AndBits(h1, blockMask) * 8;
    }

    /** `rgm_bloom_install` and `rgBloomFilterClear`: every bit off. */
    method ClearWords()
      requires Valid()
      modifies bits
      ensures forall b: nat :: !BitAt(Words(), b)
    {
      var i := 0;
      while i < 8 * blockCount
        invariant i <= 8 * blockCount && forall j :: 0 <= j < i ==> bits[j] == 0
      {
        bits[i] := 0;
        i := i + 1;
      }
      forall b: nat ensures !BitAt(Words(), b) { ZeroHasNoBits(b % 64); }
    }

    /** `rgBloomFilterCreateFromMemory`; `bufferSize` is what the caller says it owns, in bytes. */
    method CreateFromMemory(buffer: array<u64>, bufferSize: u64, budget: u64, k: u32) returns (status: Status)
      requires bufferSize <= 8 * buffer.Length
      modifies this, buffer
      ensures status == INVALID <==> budget == 0 || k == 0 || k > 512
      ensures status == OVERFLOW <==> 0 < k <= 512 && budget > 512 * MAX_BLOCKS
      ensures status == TOO_SMALL ==>
        exists n: nat :: n <= 28 && bufferSize < 64 * Pow2(n) && budget <= 512 * Pow2(n) && (n > 0 ==> 512 * Pow2(n - 1) < budget)
      ensures status == OK ==>
        && Valid() && bits == buffer && hashCount == k && bufferSize >= 64 * blockCount
        && budget <= 512 * blockCount && (blockCount > 1 ==> 512 * blockCount < 2 * budget)
        && forall b: nat :: !BitAt(Words(), b)
      ensures status != OK ==> unchanged(this) && unchanged(buffer)
    {
      hide Bit, Pow2;
      if budget == 0 || k == 0 || k > 512 {
        return INVALID;
      }
      var blocks := RoundBlocks(budget);
      if blocks == 0 {
        return OVERFLOW;
      }
      ghost var n: nat :| n <= 28 && blocks == Pow2(n) && budget <= blocks as int * 512 && (n > 0 ==> 512 * Pow2(n - 1) < budget);
      Doubled(n);
      if bufferSize < blocks as int * 64 {
        return TOO_SMALL;
      }
      blockMask := blocks - 1;
      blockCount := blocks;
      hashCount := k;
      bits := buffer;
      ClearWords();
      return OK;
    }

    /** The bits of a key, folded into one mask per word. */
    method Masks(h2: u64) returns (masks: array<u64>)
      requires Valid()
      ensures fresh(masks) && masks.Length == 8
      ensures forall w: nat :: w < 8 ==> MaskOf(h2, hashCount, w, masks[w])
    {
      hide MaskOf, Pos, First, Delta, Pow2, OrBits;
      masks := new u64[8](_ => 0);
      var pos, delta, i := First(h2), Delta(h2), 0;
      forall w: nat | w < 8 ensures MaskOf(h2, 0, w, masks[w]) { MaskStart(h2, w); }
      NextPos(h2, 0);
      while i < hashCount
        invariant 0 <= i <= hashCount && pos == Pos(h2, i)
        invariant forall w: nat :: w < 8 ==> MaskOf(h2, i, w, masks[w])
        modifies masks
      {
        BelowTop(pos % 64);
        forall w: nat | w < 8 ensures MaskOf(h2, i + 1, w, if pos / 64 == w then Or(masks[w], Pow2(pos % 64)) else masks[w]) {
          MaskStep(h2, i, w, masks[w]);
        }
        masks[pos / 64] := Or(masks[pos / 64], Pow2(pos % 64));
        StepPos(h2, i);
        pos := AndBits(pos + delta, 0x1FF);
        i := i + 1;
      }
    }

    /** `rgBloomFilterAddH`, and with `atomic` off its unsynchronised twin: both set exactly the key's bits. */
    method AddH(h1: u64, h2: u64, atomic: bool)
      requires Valid()
      modifies bits
      ensures Valid() && Added(old(Words()), Words(), blockCount, hashCount, h1, h2)
    {
      hide MaskOf, OrBits, AndBits, Added, Pow2;
      var at := Block(h1);
      var masks := Masks(h2);
      ghost var before := bits[..];
      var i := 0;
      while i < 8
        invariant 0 <= i <= 8
        invariant forall j :: 0 <= j < bits.Length ==>
          bits[j] == if at <= j < at + i then Or(before[j], masks[j - at]) else before[j]
        modifies bits
      {
        OrCovered(bits[at + i], masks[i]);
        if !atomic {
          bits[at + i] := Or(bits[at + i], masks[i]);
        } else if masks[i] != 0 && AndBits(bits[at + i], masks[i]) != masks[i] {
          bits[at + i] := Or(bits[at + i], masks[i]);
        }
        i := i + 1;
      }
      MasksAdd(before[..8 * blockCount], Words(), masks[..], blockCount, hashCount, h1, h2);
    }

    /** One probe: `word & (1 << bit)`. */
    method TestWord(at: nat, pos: nat) returns (found: bool)
      requires Valid() && at + 8 <= 8 * blockCount && pos < 512
      ensures found <==> BitAt(Words(), 64 * at + pos)
    {
      hide Pow2, AndBits, BitAt, Bit;
      SplitPos(Words(), at, pos);
      var word := bits[at + pos / 64];
      TestBit(word, pos % 64);
      found := AndBits(word, Pow2(pos % 64)) != 0;
    }

    /** `rgBloomFilterTestH`: 1 exactly when every bit of the key is found. */
    method TestH(h1: u64, h2: u64) returns (hit: bool)
      requires Valid()
      ensures hit <==> AllSet(Words(), blockCount, hashCount, h1, h2)
    {
      hide Pos, First, Delta, Pow2, OrBits, AndBits, BitAt, Bit, AllSet, Place, BlockAt, ProbesSet;
      var at := Block(h1);
      var pos, delta, i := First(h2), Delta(h2), 0;
      NextPos(h2, 0);
      ProbesStart(Words(), at, h2);
      while i < hashCount
        invariant 0 <= i <= hashCount && pos == Pos(h2, i)
        invariant ProbesSet(Words(), at, h2, i)
      {
        var found := TestWord(at, pos);
        if !found {
          MissingPlace(Words(), blockCount, hashCount, h1, h2, i);
          return false;
        }
        ProbesNext(Words(), at, h2, i);
        StepPos(h2, i);
        pos := AndBits(pos + delta, 0x1FF);
        i := i + 1;
      }
      EveryPlace(Words(), blockCount, hashCount, h1, h2);
      return true;
    }

    /** `rgBloomFilterAdd` and `rgBloomFilterTest` hash a byte key once for both digests. */
    method Add(key: Key, atomic: bool)
      requires Valid()
      modifies bits
      ensures Valid() && Added(old(Words()), Words(), blockCount, hashCount, Wyhash128(key, WYP0).0, Wyhash128(key, WYP0).1)
    {
      hide Added;
      var h1, h2 := Wyhash128Seeded(key, WYP0);
      AddH(h1, h2, atomic);
    }

    method Test(key: Key) returns (hit: bool)
      requires Valid()
      ensures hit <==> AllSet(Words(), blockCount, hashCount, Wyhash128(key, WYP0).0, Wyhash128(key, WYP0).1)
    {
      hide AllSet;
      var h1, h2 := Wyhash128Seeded(key, WYP0);
      hit := TestH(h1, h2);
    }

    /** The 64-bit key forms stand for the key's eight bytes. */
    method AddU64(key: u64, atomic: bool)
      requires Valid()
      modifies bits
      ensures Valid() && Added(old(Words()), Words(), blockCount, hashCount, Wyhash128(LE64(key), WYP0).0, Wyhash128(LE64(key), WYP0).1)
    {
      hide Added, HashU64Wide, Wyhash128, Load64;
      RegisterHashAgrees(LE64(key), WYP0);
      var h := HashU64Wide(key);
      AddH(h.0, h.1, atomic);
    }

    method TestU64(key: u64) returns (hit: bool)
      requires Valid()
      ensures hit <==> AllSet(Words(), blockCount, hashCount, Wyhash128(LE64(key), WYP0).0, Wyhash128(LE64(key), WYP0).1)
    {
      hide AllSet, HashU64Wide, Wyhash128, Load64;
      RegisterHashAgrees(LE64(key), WYP0);
      var h := HashU64Wide(key);
      hit := TestH(h.0, h.1);
    }
  }

  lemma Doubled(n: nat)
    ensures Pow2(n) > 0 && (n > 0 ==> Pow2(n) == 2 * Pow2(n - 1)) && (n == 0 ==> Pow2(n) == 1)
    ensures n > 0 ==> Pow2(n - 1) > 0
  {
    Pow2Nonzero(n);
    if n > 0 { Pow2Nonzero(n - 1); }
  }

  lemma Pow2Nonzero(n: nat)
    ensures Pow2(n) > 0
  {
    PowMono(n, n);
  }

  /** The filter bit that a position of the block is. */
  lemma SplitPos(words: seq<u64>, at: nat, pos: nat)
    requires pos < 512 && at + 8 <= |words|
    ensures at + pos / 64 < |words|
    ensures BitAt(words, 64 * at + pos) <==> Bit(words[at + pos / 64], pos % 64)
  {
    hide Bit;
    var (w, c) := (at + pos / 64, pos % 64);
    assert 64 * at + pos == 64 * w + c;
    WordBit(words, w, c);
  }

  lemma PlaceOf(blocks: nat, k: nat, h1: u64, h2: u64, i: nat)
    requires blocks > 0 && i < k
    ensures Place(blocks, k, h1, h2, 64 * (8 * (h1 % blocks)) + Pos(h2, i))
  {
    hide Pos;
    DivSmall(h1 % blocks, 512, Pos(h2, i));
  }

  /** The first `i` probes of the block at word `at` found their bits. */
  ghost predicate ProbesSet(words: seq<u64>, at: nat, h2: u64, i: nat) {
    forall j: nat :: j < i ==> BitAt(words, 64 * at + Pos(h2, j))
  }

  lemma ProbesStart(words: seq<u64>, at: nat, h2: u64)
    ensures ProbesSet(words, at, h2, 0)
  {
  }

  lemma ProbesNext(words: seq<u64>, at: nat, h2: u64, i: nat)
    requires ProbesSet(words, at, h2, i) && BitAt(words, 64 * at + Pos(h2, i))
    ensures ProbesSet(words, at, h2, i + 1)
  {
    hide BitAt, Pos;
  }

  lemma MissingPlace(words: seq<u64>, blocks: nat, k: nat, h1: u64, h2: u64, i: nat)
    requires blocks > 0 && i < k && !BitAt(words, 64 * BlockAt(blocks, h1) + Pos(h2, i))
    ensures !AllSet(words, blocks, k, h1, h2)
  {
    hide Pos, BitAt, Place;
    PlaceOf(blocks, k, h1, h2, i);
  }

  lemma EveryPlace(words: seq<u64>, blocks: nat, k: nat, h1: u64, h2: u64)
    requires blocks > 0 && ProbesSet(words, BlockAt(blocks, h1), h2, k)
    ensures AllSet(words, blocks, k, h1, h2)
  {
    hide Pos, BitAt;
    forall b: nat | Place(blocks, k, h1, h2, b) ensures BitAt(words, b) {
      var j: nat :| j < k && Pos(h2, j) == b % 512;
      assert b == 64 * (8 * (h1 % blocks)) + Pos(h2, j);
    }
  }
}
