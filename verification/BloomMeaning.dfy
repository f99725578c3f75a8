/**
 What the filter's positions are in terms of the digests' bits, and what that means for callers: a Test
 after one Add is decided by the two keys' blocks and positions alone.
 */
module BloomMeaning {
  import opened Machine
  import opened Words
  import opened Bits
  import opened BloomFilter

  /** A shift by `s` divides by a power of two. */
  lemma {:induction false} ShrDivides(a: nat, s: nat)
    ensures Pow2(s) > 0 && Shr(a, s) == a / Pow2(s)
    decreases s
  {
    Pow2Positive(s);
    if s > 0 {
      ShrDivides(a / 2, s - 1);
      HalfThen(a, Pow2(s - 1));
    }
  }

  lemma HalfThen(a: nat, m: nat)
    requires m > 0
    ensures a / 2 / m == a / (2 * m)
  {
    var (h, q) := (a / 2, a / 2 / m);
    var r := h % m;
    assert h == m * q + r;
    assert a == (2 * m) * q + (a % 2 + 2 * r) by { MulAssoc(2, m, q); }
    Quotient(a, 2 * m, q, a % 2 + 2 * r);
  }

  /** Half the step: bits 33 to 40 of the second digest. */
  function HalfStep(h2: u64): nat {
    h2 / 0x2_0000_0000 % 256
  }

  lemma DeltaValue(h2: u64)
    ensures First(h2) == h2 % 512 && Delta(h2) == 2 * HalfStep(h2) + 1
  {
    hide AndBits, OrBits, Shr;
    Low9(h2);
    Low9(Shr(h2, 32));
    ShrDivides(h2, 32);
    Power32();
    OrOne(Shr(h2, 32) % 512);
    NineBits(h2);
  }

  lemma Power32()
    ensures Pow2(32) == 0x1_0000_0000
  {
    assert Pow2(4) == 16 by { assert Pow2(2) == 4; }
    Pow2Add(4, 4);
    Pow2Add(8, 8);
    Pow2Add(16, 16);
  }

  /** Nine bits with the lowest one forced on. */
  lemma NineBits(h: u64)
    ensures var d := h / 0x1_0000_0000 % 512;
      2 * (h / 0x2_0000_0000 % 256) + 1 == if d % 2 == 1 then d else d + 1
  {
    var x := h / 0x1_0000_0000;
    HalfQuotient(h);
    assert x / 2 % 256 == x % 512 / 2;
  }

  lemma HalfQuotient(h: u64)
    ensures h / 0x2_0000_0000 == h / 0x1_0000_0000 / 2
  {
  }

  /** Position `i`: the low nine bits of the second digest, plus `i` steps. */
  lemma PosValue(h2: u64, i: nat)
    ensures Steps(h2, i) >= 0 && Pos(h2, i) == (h2 % 512 + Steps(h2, i)) % 512
  {
    hide First, Delta, HalfStep;
    DeltaValue(h2);
    StepsNonNegative(i, Delta(h2));
  }

  function Steps(h2: u64, i: nat): int {
    i * (2 * HalfStep(h2) + 1)
  }

  /** Two digests start at the same position exactly when their low nine bits agree, and have the same
      positions throughout exactly when the bits of the step agree too. */
  lemma SamePositions(x: u64, y: u64)
    ensures Pos(x, 0) == Pos(y, 0) <==> x % 512 == y % 512
    ensures (forall i: nat :: Pos(x, i) == Pos(y, i)) <==> x % 512 == y % 512 && HalfStep(x) == HalfStep(y)
  {
    hide First, Delta, HalfStep, Pos, Steps;
    StartPos(x);
    StartPos(y);
    if x % 512 == y % 512 && HalfStep(x) == HalfStep(y) {
      forall i: nat ensures Pos(x, i) == Pos(y, i) {
        PosValue(x, i);
        PosValue(y, i);
        SameSteps(x, y, i);
      }
    }
    if Pos(x, 0) == Pos(y, 0) && Pos(x, 1) == Pos(y, 1) {
      SecondPos(x);
      SecondPos(y);
      StepFits(x);
      StepFits(y);
      SameOffset(x % 512, HalfStep(x), HalfStep(y));
    }
  }

  lemma StartPos(h2: u64)
    ensures Pos(h2, 0) == h2 % 512
  {
    PosValue(h2, 0);
  }

  lemma SecondPos(h2: u64)
    ensures Pos(h2, 1) == (h2 % 512 + 2 * HalfStep(h2) + 1) % 512
  {
    PosValue(h2, 1);
  }

  lemma StepFits(h2: u64)
    ensures HalfStep(h2) < 256
  {
  }

  lemma SameSteps(x: u64, y: u64, i: nat)
    requires HalfStep(x) == HalfStep(y)
    ensures Steps(x, i) == Steps(y, i)
  {
  }

  lemma SameOffset(a: nat, s: nat, t: nat)
    requires s < 256 && t < 256 && (a + 2 * s + 1) % 512 == (a + 2 * t + 1) % 512
    ensures s == t
  {
  }

  // -----------------------------------------------------------------------------
  // One Add, one Test.

  /** The positions of `y` cover those of `x`. */
  ghost predicate Covers(k: nat, y: u64, x: u64) {
    forall i: nat :: i < k ==> Chosen(y, k, Pos(x, i))
  }

  /** After one Add into an empty filter, a Test answers 1 exactly when the two keys' blocks are the same and
      every position tested is one of those added. */
  lemma TestAfterAdd(before: seq<u64>, after: seq<u64>, blocks: nat, k: nat, y1: u64, y2: u64, x1: u64, x2: u64)
    requires blocks > 0 && k > 0 && |before| == 8 * blocks && forall b: nat :: !BitAt(before, b)
    requires Added(before, after, blocks, k, y1, y2)
    ensures AllSet(after, blocks, k, x1, x2) <==> x1 % blocks == y1 % blocks && Covers(k, y2, x2)
  {
    hide Pos, BitAt, Bit;
    if AllSet(after, blocks, k, x1, x2) {
      forall i: nat | i < k ensures x1 % blocks == y1 % blocks && Chosen(y2, k, Pos(x2, i)) {
        OnePlace(blocks, k, x1, x2, i);
        var b := 512 * (x1 % blocks) + Pos(x2, i);
        InFilter(after, blocks, b);
        assert Place(blocks, k, y1, y2, b);
      }
      assert Chosen(y2, k, Pos(x2, 0));
    }
    if x1 % blocks == y1 % blocks && Covers(k, y2, x2) {
      forall b: nat | Place(blocks, k, x1, x2, b) ensures BitAt(after, b) {
        var i: nat :| i < k && Pos(x2, i) == b % 512;
        BlockInFilter(blocks, x1, b);
      }
    }
  }

  lemma OnePlace(blocks: nat, k: nat, h1: u64, h2: u64, i: nat)
    requires blocks > 0 && i < k
    ensures var b := 512 * (h1 % blocks) + Pos(h2, i);
      b / 512 == h1 % blocks && b % 512 == Pos(h2, i) && Place(blocks, k, h1, h2, b)
  {
    hide Pos;
  }

  lemma InFilter(words: seq<u64>, blocks: nat, b: nat)
    requires BitAt(words, b) && |words| == 8 * blocks
    ensures b < 64 * |words|
  {
  }

  lemma BlockInFilter(blocks: nat, h1: u64, b: nat)
    requires blocks > 0 && b / 512 == h1 % blocks
    ensures b < 512 * blocks
  {
  }

  /** So a key in another block, or one whose start bit was not added, is never reported. */
  lemma OutsideIsMissed(before: seq<u64>, after: seq<u64>, blocks: nat, k: nat, y1: u64, y2: u64, x1: u64, x2: u64)
    requires blocks > 0 && k > 0 && |before| == 8 * blocks && forall b: nat :: !BitAt(before, b)
    requires Added(before, after, blocks, k, y1, y2)
    requires x1 % blocks != y1 % blocks || forall i: nat :: i < k ==> (y2 % 512 + Steps(y2, i)) % 512 != x2 % 512
    ensures !AllSet(after, blocks, k, x1, x2)
  {
    hide Pos, BitAt, Bit, Steps;
    TestAfterAdd(before, after, blocks, k, y1, y2, x1, x2);
    if x1 % blocks == y1 % blocks && Covers(k, y2, x2) {
      StartPos(x2);
      assert Chosen(y2, k, Pos(x2, 0));
      var i: nat :| i < k && Pos(y2, i) == Pos(x2, 0);
      PosValue(y2, i);
      assert false;
    }
  }
}
