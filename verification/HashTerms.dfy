/**
 What a digest depends on. A key is first turned into a term: the words it is read as, in the order in
 which they are mixed, with no arithmetic done. The digest is the value of that term, and different keys
 have different terms: no byte and no length is dropped before the mixing, whatever the length.
 */
module HashTerms {
  import opened Machine
  import opened Bytes
  import opened Words
  import opened HashFunc

  /** The state of a lane before evaluation: the seed, two words mixed in, or three lanes folded. */
  datatype State = Seed | Mixed(a: u64, b: u64, secret: u64, on: State) | Folded(x: State, y: State, z: State)

  /** The final mix. */
  datatype Term = Term(a: u64, b: u64, len: nat, on: State)

  function LaneState(p: seq<u8>, base: nat, stride: nat, n: nat, secret: u64, on: State): State
    requires n > 0 ==> base + (n - 1) * stride + 16 <= |p|
  {
    if n == 0 then on
    else
      BlockInside(base, stride, n, |p|);
      var at := base + (n - 1) * stride;
      Mixed(Load64(p, at), Load64(p, at + 8), secret, LaneState(p, base, stride, n - 1, secret, on))
  }

  /** The three lanes over `n` blocks of 48 bytes. */
  function LanesState(p: seq<u8>, n: nat): State
    requires n * 48 <= |p|
  {
    if n == 0 then Seed
    else
      Folded(LaneState(p, 0, 48, n, 0x8bb84b93962eacc9, Seed), LaneState(p, 16, 48, n, 0x4b33a62ed433d4a3, Seed),
             LaneState(p, 32, 48, n, 0x4d5a2da51de1aa47, Seed))
  }

  function TermOf(p: Key): Term {
    if |p| <= 16 then Term(ShortWords(p).0, ShortWords(p).1, |p|, Seed)
    else
      var n := Blocks48(|p|);
      var lanes := LaneState(p, 48 * n, 16, Blocks16(|p| - 48 * n), 0x8bb84b93962eacc9, LanesState(p, n));
      Term(Load64(p, |p| - 16), Load64(p, |p| - 8), |p|, lanes)
  }

  function ValueOf(s: State, seed: u64): u64 {
    match s
    case Seed => seed
    case Mixed(a, b, secret, on) => Mix(a, b, secret, ValueOf(on, seed))
    case Folded(x, y, z) => Xor(ValueOf(x, seed), Xor(ValueOf(y, seed), ValueOf(z, seed)))
  }

  lemma {:induction false} LaneValue(p: seq<u8>, base: nat, stride: nat, n: nat, secret: u64, on: State, seed: u64)
    requires n > 0 ==> base + (n - 1) * stride + 16 <= |p|
    ensures ValueOf(LaneState(p, base, stride, n, secret, on), seed) == Lane(p, base, stride, n, secret, ValueOf(on, seed))
    decreases n
  {
    hide Mix, Load64;
    if n > 0 {
      BlockInside(base, stride, n, |p|);
      LaneValue(p, base, stride, n - 1, secret, on, seed);
    }
  }

  /** The digests are the values of the key's term. */
  lemma DigestIsTerm(p: Key, seed: u64)
    ensures var t := TermOf(p);
      && t.len < 0x1_0000_0000_0000_0000
      && Wyhash(p, seed) == Mix(t.a, Xor(t.b, t.len), 0x8bb84b93962eacc9, ValueOf(t.on, seed))
      && Wyhash128(p, seed) == Mix128(t.a, Xor(t.b, t.len), 0x8bb84b93962eacc9, ValueOf(t.on, seed))
  {
    hide Mix, Mix128, XorBits, Load32, Load64, ShortWords, LaneState, Lane;
    if |p| > 16 {
      var n := Blocks48(|p|);
      if n > 0 {
        LaneValue(p, 0, 48, n, WYP1, Seed, seed);
        LaneValue(p, 16, 48, n, WYP2, Seed, seed);
        LaneValue(p, 32, 48, n, WYP3, Seed, seed);
      }
      LaneValue(p, 48 * n, 16, Blocks16(|p| - 48 * n), WYP1, LanesState(p, n), seed);
    }
  }

  // -----------------------------------------------------------------------------
  // Different keys, different terms.

  lemma SplitJoin(h: u32, l: u32, h1: u32, l1: u32)
    requires Join(h, l) == Join(h1, l1)
    ensures h == h1 && l == l1
  {
  }

  /** A short key can be read back from its two words. */
  lemma ShortWordsSeeAll(p: Key, q: Key)
    requires |p| == |q| <= 16
    ensures ShortWords(p) == ShortWords(q) <==> p == q
  {
    hide Load32, Join;
    if ShortWords(p) == ShortWords(q) {
      var n := |p|;
      if n >= 4 {
        var gap := n / 8 * 4;
        SplitJoin(Load32(p, 0), Load32(p, gap), Load32(q, 0), Load32(q, gap));
        SplitJoin(Load32(p, n - 4), Load32(p, n - 4 - gap), Load32(q, n - 4), Load32(q, n - 4 - gap));
        FourWordsCover(n, 0);
        FourWordsSee(p, q, gap);
      } else if n > 0 {
        SplitThree(p[0], p[n / 2], p[n - 1], q[0], q[n / 2], q[n - 1]);
      }
    }
  }

  lemma FourWordsSee(p: Key, q: Key, gap: nat)
    requires 4 <= |p| == |q| <= 16 && gap == |p| / 8 * 4 <= |p| - 4
    requires Load32(p, 0) == Load32(q, 0) && Load32(p, gap) == Load32(q, gap)
    requires var n := |p|; Load32(p, n - 4) == Load32(q, n - 4) && Load32(p, n - 4 - gap) == Load32(q, n - 4 - gap)
    ensures p == q
  {
    hide Load32;
    var n := |p|;
    WordBytes(p, 0, q, 0);
    WordBytes(p, gap, q, gap);
    WordBytes(p, n - 4, q, n - 4);
    WordBytes(p, n - 4 - gap, q, n - 4 - gap);
    forall i | 0 <= i < n ensures p[i] == q[i] {
      FourWordsCover(n, i);
      if i < 4 { SliceAt(p, q, 0, 4, i); }
      else if gap <= i < gap + 4 { SliceAt(p, q, gap, gap + 4, i); }
      else if n - 4 - gap <= i < n - gap { SliceAt(p, q, n - 4 - gap, n - gap, i); }
      else { SliceAt(p, q, n - 4, n, i); }
    }
  }

  lemma FourWordsCover(n: nat, i: nat)
    requires 4 <= n <= 16 && i < n
    ensures var gap := n / 8 * 4; gap <= n - 4 && (i < 4 || gap <= i < gap + 4 || n - 4 - gap <= i < n - gap || n - 4 <= i)
  {
    var gap := n / 8 * 4;
    assert n < 8 ==> gap == 0;
    assert 8 <= n < 16 ==> gap == 4;
    assert n == 16 ==> gap == 8;
  }

  lemma SliceAt(p: seq<u8>, q: seq<u8>, lo: nat, hi: nat, i: nat)
    requires lo <= i < hi <= |p| && hi <= |q| && p[lo..hi] == q[lo..hi]
    ensures p[i] == q[i]
  {
    assert p[lo..hi][i - lo] == q[lo..hi][i - lo];
  }

  lemma SplitThree(a: u8, b: u8, c: u8, a1: u8, b1: u8, c1: u8)
    requires a * 0x1_0000 + b * 0x100 + c == a1 * 0x1_0000 + b1 * 0x100 + c1
    ensures a == a1 && b == b1 && c == c1
  {
  }

  /** Two lanes that read the same have the same blocks and the same start. */
  lemma {:induction false} LaneSees(p: seq<u8>, q: seq<u8>, base: nat, stride: nat, n: nat, secret: u64, s: State, t: State)
    requires |p| == |q| && (n > 0 ==> base + (n - 1) * stride + 16 <= |p|)
    requires LaneState(p, base, stride, n, secret, s) == LaneState(q, base, stride, n, secret, t)
    ensures s == t
    ensures forall j: nat :: j < n ==> SameBlock(p, q, base + j * stride)
    decreases n
  {
    hide Load64;
    if n > 0 {
      BlockInside(base, stride, n, |p|);
      LaneSees(p, q, base, stride, n - 1, secret, s, t);
      var at := base + (n - 1) * stride;
      SameWord64(p, at, q, at);
      SameWord64(p, at + 8, q, at + 8);
      assert p[at..at + 16] == p[at..at + 8] + p[at + 8..at + 16] && q[at..at + 16] == q[at..at + 8] + q[at + 8..at + 16];
      forall j: nat | j < n ensures SameBlock(p, q, base + j * stride) {
        if j == n - 1 { assert SameBlock(p, q, at); }
      }
    }
  }

  ghost predicate SameBlock(p: seq<u8>, q: seq<u8>, at: int) {
    0 <= at && at + 16 <= |p| && at + 16 <= |q| && p[at..at + 16] == q[at..at + 16]
  }

  lemma SameByte(p: seq<u8>, q: seq<u8>, at: int, i: nat)
    requires SameBlock(p, q, at) && at <= i < at + 16
    ensures i < |p| && i < |q| && p[i] == q[i]
  {
    SliceAt(p, q, at, at + 16, i);
  }

  /** Every byte of a long key lies in a block of one of the lanes, in a block after them, or in the last 16. */
  lemma BlocksCover(len: nat, i: nat)
    requires len > 16 && i < len
    ensures var n := Blocks48(len); var r := Blocks16(len - 48 * n);
      || (exists b: nat, l: nat :: b < n && l < 3 && 16 * l + b * 48 <= i < 16 * l + b * 48 + 16)
      || (exists j: nat :: j < r && 48 * n + j * 16 <= i < 48 * n + j * 16 + 16)
      || len - 16 <= i
  {
    var n := Blocks48(len);
    if i < 48 * n {
      var (b, l) := (i / 48, i % 48 / 16);
      assert b < n && l < 3 && 16 * l + b * 48 <= i < 16 * l + b * 48 + 16;
    } else {
      var r := Blocks16(len - 48 * n);
      if i < 48 * n + 16 * r {
        var j := (i - 48 * n) / 16;
        assert j < r && 48 * n + j * 16 <= i < 48 * n + j * 16 + 16;
      }
    }
  }

  lemma LanesSee(p: seq<u8>, q: seq<u8>, n: nat, l: nat, b: nat)
    requires |p| == |q| && n * 48 <= |p| && LanesState(p, n) == LanesState(q, n) && l < 3 && b < n
    ensures SameBlock(p, q, 16 * l + b * 48)
  {
    hide LaneState;
    LaneSees(p, q, 0, 48, n, WYP1, Seed, Seed);
    LaneSees(p, q, 16, 48, n, WYP2, Seed, Seed);
    LaneSees(p, q, 32, 48, n, WYP3, Seed, Seed);
  }

  lemma LongTermSeesAll(p: Key, q: Key)
    requires |p| == |q| > 16 && TermOf(p) == TermOf(q)
    ensures p == q
  {
    hide Load64, LaneState, LanesState;
    var len := |p|;
    var n := Blocks48(len);
    var r := Blocks16(len - 48 * n);
    LaneSees(p, q, 48 * n, 16, r, WYP1, LanesState(p, n), LanesState(q, n));
    SameWord64(p, len - 16, q, len - 16);
    SameWord64(p, len - 8, q, len - 8);
    forall i: nat | i < len ensures p[i] == q[i] {
      BlocksCover(len, i);
      if i < len - 16 {
        if b: nat, l: nat :| b < n && l < 3 && 16 * l + b * 48 <= i < 16 * l + b * 48 + 16 {
          LanesSee(p, q, n, l, b);
          SameByte(p, q, 16 * l + b * 48, i);
        } else {
          var j: nat :| j < r && 48 * n + j * 16 <= i < 48 * n + j * 16 + 16;
          SameByte(p, q, 48 * n + j * 16, i);
        }
      } else if i < len - 8 {
        SliceAt(p, q, len - 16, len - 8, i);
      } else {
        SliceAt(p, q, len - 8, len, i);
      }
    }
  }

  /** The term determines the key: keys that differ in any byte, or in length alone, are mixed differently. */
  lemma TermSeesAll(p: Key, q: Key)
    ensures TermOf(p) == TermOf(q) <==> p == q
  {
    hide ShortWords, Load64, LaneState, LanesState;
    if TermOf(p) == TermOf(q) {
      if |p| <= 16 { ShortWordsSeeAll(p, q); } else { LongTermSeesAll(p, q); }
    }
  }

  // -----------------------------------------------------------------------------
  // The mix.

  /** The protected mix: the product is folded with both its factors, so a factor that happens to be zero
      leaves the other one as the result, and with it a word and the seed. */
  lemma MixKeepsOther(a: u64, b: u64, s1: u64, s2: u64)
    ensures Xor(Xor(a, s1), s2) == 0 ==> Mix(a, b, s1, s2) == Xor(b, s2) && Mix128(a, b, s1, s2).1 == Xor(b, s2)
    ensures Xor(b, s2) == 0 ==> Mix(a, b, s1, s2) == Xor(Xor(a, s1), s2) && Mix128(a, b, s1, s2).1 == 0
  {
    hide XorBits;
    MixAgrees(a, b, s1, s2);
    var (x, y) := (Xor(Xor(a, s1), s2), Xor(b, s2));
    XorWithZero(0);
    XorWithZero(x);
    XorWithZero(y);
    XorSwap(0, y);
  }

  predicate IsProduct(x: u64, y: u64, hi: u64, lo: u64) {
    x * y == hi * 0x1_0000_0000_0000_0000 + lo
  }

  /** Undoing the fold leaves the two halves of the exact product of the factors. */
  lemma MixIsProduct(a: u64, b: u64, s1: u64, s2: u64)
    ensures var (x, y) := (Xor(Xor(a, s1), s2), Xor(b, s2)); var (h1, h2) := Mix128(a, b, s1, s2);
      Mix(a, b, s1, s2) == h1 && IsProduct(x, y, Xor(y, h2), Xor(Xor(x, y), Xor(h1, Xor(y, h2))))
  {
    hide XorBits;
    var (x, y) := (Xor(Xor(a, s1), s2), Xor(b, s2));
    var w := Mul128(x, y);
    MixAgrees(a, b, s1, s2);
    XorTwice(y, w.hi);
    Unfold(Xor(x, y), w.lo, w.hi);
  }

  /** `z ^ ((z ^ lo ^ hi) ^ hi)` is `lo`. */
  lemma Unfold(z: u64, lo: u64, hi: u64)
    ensures Xor(z, Xor(Xor(Xor(z, lo), hi), hi)) == lo
  {
    hide XorBits;
    XorAssociative(Xor(z, lo), hi, hi);
    XorSelf(hi);
    XorWithZero(Xor(z, lo));
    XorTwice(z, lo);
  }
}
