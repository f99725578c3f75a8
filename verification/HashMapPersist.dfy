/**
 Save and Open on memory images: the header in the sentinel line, the index copy, and what Open makes
 of a saved image, of a saved image that Put went on changing, and of arbitrary bytes.
 */
module HashMapPersist {
  import opened Machine
  import opened Bytes
  import opened Descent
  import opened TrieShape
  import opened HashFunc
  import opened HashMapLayout
  import opened HashMapPut
  import opened HashMapNodes
  import opened HashMapValidate

  const MAGIC: u64 := 0x52474d484d415031
  const VERSION: u32 := 2
  const TOP_BITS: u32 := 12
  const HEADER_SIZE: nat := 32
  const INDEX_BYTES: nat := 16384

  datatype Header = Header(magic: u64, version: u32, topBits: u32, highWater: u64, indexOffset: u64)

  function HeaderAt(m: Image): Header
    requires HEADER_SIZE <= |m|
  {
    Header(Load64(m, 0), Load32(m, 8), Load32(m, 12), Load64(m, 16), Load64(m, 24))
  }

  function IndexAt(m: Image, off: nat): (top: seq<u32>)
    requires off + INDEX_BYTES <= |m|
    ensures |top| == TOP_SIZE
  {
    seq(TOP_SIZE, i requires 0 <= i < TOP_SIZE => Load32(m, off + 4 * i))
  }

  /** The header tests that Save and Open share. */
  predicate Reusable(h: Header, cap: u64) {
    && h.magic == MAGIC
    && h.version == VERSION
    && h.topBits == TOP_BITS
    && CACHE_LINE <= h.indexOffset <= 0xFFFF_FFFF
    && h.indexOffset <= cap
    && INDEX_BYTES <= cap - h.indexOffset
  }

  predicate HeaderAccepted(h: Header, cap: u64, committed: u64) {
    && Reusable(h, cap)
    && h.indexOffset % 4 == 0
    && h.highWater <= cap
    && h.highWater <= committed
    && h.highWater >= h.indexOffset + INDEX_BYTES
  }

  lemma AcceptedBounds(h: Header, cap: u64, committed: u64)
    requires HeaderAccepted(h, cap, committed)
    ensures h.indexOffset + INDEX_BYTES <= h.highWater <= committed && h.highWater <= cap && CACHE_LINE <= h.indexOffset
  {
  }

  /** Whether Open accepts a reservation holding `mem`, of which `committed` bytes may be read. */
  predicate Opens(mem: seq<u8>, committed: u64)
    requires committed <= |mem| < 0x1_0000_0000_0000_0000
  {
    && committed >= HEADER_SIZE
    && var h := HeaderAt(mem);
    && HeaderAccepted(h, |mem|, committed)
    && CheckRoots(mem[..h.highWater], IndexAt(mem, h.indexOffset), 0, h.highWater / NODE_SIZE).Some?
  }

  /** What acceptance means, byte by byte and number by number, for any bytes at all: the eleven tests of the
      header's fields, then a node graph that is safe to walk, at most 256 levels deep, and visited no more
      often than there is room for nodes. */
  lemma OpensExactly(mem: seq<u8>, committed: u64)
    requires committed <= |mem| < 0x1_0000_0000_0000_0000
    ensures Opens(mem, committed) <==>
      && 32 <= committed
      && Load64(mem, 0) == 0x5247_4d48_4d41_5031 && Load32(mem, 8) == 2 && Load32(mem, 12) == 12
      && var (high, io) := (Load64(mem, 16), Load64(mem, 24));
      && 64 <= io <= 0xFFFF_FFFF && io % 4 == 0 && io + 16384 <= high <= committed
      && GraphAccepted(mem[..high], IndexAt(mem, io))
    ensures Opens(mem, committed) ==> HeaderAt(mem).highWater == Load64(mem, 16) && HeaderAt(mem).indexOffset == Load64(mem, 24)
  {
    hide Load32, Load64, CheckRoots, IndexAt, GraphAccepted;
    if committed >= 32 {
      var h := HeaderAt(mem);
      if HeaderAccepted(h, |mem|, committed) {
        GraphCheck(mem[..h.highWater], IndexAt(mem, h.indexOffset));
      }
    }
  }

  /** A node graph that Open takes. */
  ghost predicate GraphAccepted(m: Image, top: seq<u32>) {
    && SafeRoots(m, top)
    && (forall i: nat | i < |top| && top[i] != 0 :: Depth(m, top[i]) <= 256)
    && |AllNodes(m, top)| <= |m| / 40
  }

  lemma GraphCheck(m: Image, top: seq<u32>)
    requires |top| == TOP_SIZE
    ensures CheckRoots(m, top, 0, |m| / NODE_SIZE).Some? <==> GraphAccepted(m, top)
  {
    hide Safe, Nodes, Depth, CheckRoots, RootsFrom;
    ValidatorExact(m, top, |m| / NODE_SIZE);
  }

  /** A file whose magic, version or index width is not the library's own is refused, whatever else it holds. */
  lemma ForeignFileRefused(mem: seq<u8>, committed: u64, mem1: seq<u8>)
    requires committed <= |mem| == |mem1| < 0x1_0000_0000_0000_0000 && 32 <= committed && Opens(mem, committed)
    requires Load64(mem1, 0) != Load64(mem, 0) || Load32(mem1, 8) != Load32(mem, 8) || Load32(mem1, 12) != Load32(mem, 12)
    ensures !Opens(mem1, committed)
  {
    hide Load32, Load64, GraphAccepted, IndexAt, Opens;
    OpensExactly(mem, committed);
    OpensExactly(mem1, committed);
  }

  /** The map that an accepted Open installs: image and index. */
  function Opened(mem: seq<u8>): (Image, seq<u32>)
    requires |mem| >= HEADER_SIZE
    requires var h := HeaderAt(mem); h.highWater <= |mem| && h.indexOffset + INDEX_BYTES <= |mem|
  {
    var h := HeaderAt(mem);
    (mem[..h.highWater], IndexAt(mem, h.indexOffset))
  }

  /** On arbitrary bytes: whatever Open accepts is safe to walk for every key, at most 256 deep, and was
      visited no more often than nodes could fit. */
  lemma OpenIsSafe(mem: seq<u8>, committed: u64)
    requires committed <= |mem| < 0x1_0000_0000_0000_0000 && Opens(mem, committed)
    ensures var (m, top) := Opened(mem);
      && |m| <= committed && SafeRoots(m, top) && DepthAtMost(m, top, MAX_DEPTH) && |AllNodes(m, top)| <= |m| / NODE_SIZE
  {
    hide Safe, Nodes, Depth, CheckRoots, RootsFrom, HeaderAt, IndexAt;
    var (m, top) := Opened(mem);
    ValidatorExact(m, top, |m| / NODE_SIZE);
  }

  /** A node and its inline key inside the image, aligned, with links that only lead upwards. */
  predicate LiesInside(m: Image, q: nat) {
    && 64 <= q && q % 8 == 0 && q + 40 <= |m| && q + 40 + Load32(m, q + 32) <= |m|
    && forall c | 0 <= c < 4 :: Load32(m, q + 4 * c) == 0 || Load32(m, q + 4 * c) > q
  }

  lemma {:induction false} NodesInside(m: Image, off: nat)
    requires Safe(m, off)
    ensures forall q :: q in Nodes(m, off) ==> LiesInside(m, q)
    decreases |m| - off, 5
  {
    hide Nodes, NodesFrom, Load32, LiesInside;
    InsideHere(m, off);
    NodesFromInside(m, off, 0);
    NodesUnfold(m, off);
  }

  lemma InsideHere(m: Image, off: nat)
    requires Safe(m, off)
    ensures LiesInside(m, off)
  {
    hide Load32;
    forall c: nat | c < 4 ensures Load32(m, off + 4 * c) == 0 || Load32(m, off + 4 * c) > off {
      assert Link(m, off, c) == 0 || Link(m, off, c) > off;
    }
  }

  lemma NodesUnfold(m: Image, off: nat)
    requires Safe(m, off)
    ensures Nodes(m, off) == [off] + NodesFrom(m, off, 0)
  {
  }

  lemma {:induction false} NodesFromInside(m: Image, off: nat, c: nat)
    requires Safe(m, off) && c <= 4
    ensures forall q :: q in NodesFrom(m, off, c) ==> LiesInside(m, q)
    decreases |m| - off, 4 - c
  {
    hide Nodes, Load32, LiesInside;
    if c < 4 {
      NodesFromInside(m, off, c + 1);
      var q := Link(m, off, c);
      if q != 0 { NodesInside(m, q); }
    }
  }

  lemma {:induction false} RootsInside(m: Image, top: seq<u32>, i: nat)
    requires SafeRoots(m, top) && i <= |top|
    ensures forall q :: q in RootsFrom(m, top, i) ==> LiesInside(m, q)
    decreases |top| - i
  {
    hide Safe, Nodes, LiesInside;
    if i < |top| {
      RootsInside(m, top, i + 1);
      if top[i] != 0 { NodesInside(m, top[i]); }
    }
  }

  /** Every node that can be reached in an accepted file lies, with its key, between the first cache line and
      the high-water mark, is aligned, and links upwards only. */
  lemma AcceptedNodesInside(mem: seq<u8>, committed: u64)
    requires committed <= |mem| < 0x1_0000_0000_0000_0000 && Opens(mem, committed)
    ensures var (m, top) := Opened(mem); |m| <= committed && SafeRoots(m, top) && forall q :: q in AllNodes(m, top) ==> LiesInside(m, q)
  {
    hide Safe, RootsFrom, LiesInside, CheckRoots, HeaderAt, IndexAt, Depth, Nodes;
    OpenIsSafe(mem, committed);
    RootsInside(Opened(mem).0, Opened(mem).1, 0);
  }

  /** In an accepted image every walk stops within 256 nodes, all of them in bounds. */
  lemma {:induction false} WalkIsShort(H: Hasher<Key>, m: Image, k: Key, cur: nat, reg: Reg)
    requires Safe(m, cur)
    ensures var r := Find(H, m, k, cur, reg); r == 0 || (InBounds(m, r) && Hit(H, m, r, k))
    ensures Steps(H, m, k, cur, reg) <= Depth(m, cur)
    decreases |m| - cur
  {
    hide Hit, Advance, Digit;
    if !Hit(H, m, cur, k) {
      var d := Digit(reg);
      DigitInRange(reg);
      SafeStep(m, cur);
      var q := Link(m, cur, d);
      if q != 0 {
        WalkIsShort(H, m, k, q, Advance(H, k, reg));
        DeepChild(m, cur, 0, d);
      }
    }
  }

  lemma DigitInRange(reg: Reg)
    ensures Digit(reg) < 4
  {
  }

  /** The number of nodes that the walk for `k` reads. */
  function Steps(H: Hasher<Key>, m: Image, k: Key, cur: nat, reg: Reg): nat
    requires cur == 0 || Safe(m, cur)
    decreases if cur == 0 then 0 else |m| - cur
  {
    if cur == 0 then 0
    else if Hit(H, m, cur, k) then 1
    else 1 + Steps(H, m, k, Link(m, cur, Digit(reg)), Advance(H, k, reg))
  }

  lemma {:induction false} DeepChild(m: Image, off: nat, c: nat, d: nat)
    requires Safe(m, off) && c <= d < 4 && Link(m, off, d) != 0 && Safe(m, Link(m, off, d))
    ensures Depth(m, Link(m, off, d)) <= DepthFrom(m, off, c)
    decreases d - c
  {
    hide Depth, Safe;
    if c < d { DeepChild(m, off, c + 1, d); }
  }

  // -----------------------------------------------------------------------------
  // Save.

  /** No node overlaps these bytes. */
  ghost predicate Clear(m: Image, offs: set<nat>, lo: nat, hi: nat)
    requires AllFit(m, offs)
  {
    forall o: nat :: o in offs ==> End(m, o) <= lo || hi <= o
  }

  /** A header that Save would reuse points at a region that no node overlaps. */
  ghost predicate HeaderOk(m: Image, offs: set<nat>, cap: u64)
    requires AllFit(m, offs)
  {
    && |m| >= CACHE_LINE
    && (Reusable(HeaderAt(m), cap) ==>
          var io := HeaderAt(m).indexOffset;
          io % 4 == 0 && io + INDEX_BYTES <= |m| && Clear(m, offs, io, io + INDEX_BYTES))
  }

  /** `m1` is `m` with the header and the index copy at `io` written. */
  ghost predicate SavedAs(m: Image, m1: Image, top: seq<u32>, io: nat) {
    && CACHE_LINE <= io <= 0xFFFF_FFFF && io % 4 == 0 && io + INDEX_BYTES <= |m| == |m1| < 0x1_0000_0000_0000_0000
    && HeaderAt(m1) == Header(MAGIC, VERSION, TOP_BITS, |m1|, io)
    && IndexAt(m1, io) == top
    && m1[HEADER_SIZE..io] == m[HEADER_SIZE..io]
    && m1[io + INDEX_BYTES..] == m[io + INDEX_BYTES..]
  }

  /** Bytes outside the nodes do not matter. */
  lemma SameNodesHonest(H: Hasher<Key>, m: Image, m1: Image, top: seq<u32>, offs: set<nat>)
    requires Honest(H, m, top, offs) && |m1| > 0
    requires forall o: nat :: o in offs ==> End(m, o) <= |m1| && m1[o..End(m, o)] == m[o..End(m, o)]
    ensures Honest(H, m1, top, offs) && View(m1, top, offs) == View(m, top, offs)
    ensures forall o: nat :: o in offs ==> End(m1, o) == End(m, o)
  {
    hide WellFormed, NodeAt, Load32;
    forall o: nat | o in offs
      ensures Fits(m1, o) && End(m1, o) == End(m, o) && NodeAt(m1, o) == NodeAt(m, o)
      ensures forall c: nat :: c < 4 ==> Link(m1, o, c) == Link(m, o, c)
    {
      NodeSame(m, m1, o);
    }
    forall o: nat, c: nat | o in offs && c < 4 ensures LinkUp(m1, offs, o, c) {
      assert LinkUp(m, offs, o, c);
    }
    assert View(m1, top, offs).heap == View(m, top, offs).heap;
  }

  /** A zeroed sentinel line is no header. */
  lemma BlankHeader(m: Image)
    requires |m| >= CACHE_LINE && forall i :: 0 <= i < CACHE_LINE ==> m[i] == 0
    ensures forall cap: u64 :: HeaderOk(m, {}, cap)
  {
    assert HeaderAt(m).magic == 0;
  }

  lemma SaveHonest(H: Hasher<Key>, m: Image, m1: Image, top: seq<u32>, offs: set<nat>, io: nat)
    requires Honest(H, m, top, offs) && SavedAs(m, m1, top, io) && Clear(m, offs, io, io + INDEX_BYTES)
    ensures Honest(H, m1, top, offs) && View(m1, top, offs) == View(m, top, offs)
    ensures Clear(m1, offs, io, io + INDEX_BYTES)
    ensures forall cap: u64 :: HeaderOk(m1, offs, cap)
  {
    hide WellFormed, NodeAt, Load32, HeaderAt, IndexAt;
    forall o: nat | o in offs ensures End(m, o) <= |m1| && m1[o..End(m, o)] == m[o..End(m, o)] {
      if End(m, o) <= io {
        SubSlice(m, m1, HEADER_SIZE, io, o, End(m, o));
      } else {
        assert m1[io + INDEX_BYTES..|m|] == m1[io + INDEX_BYTES..] && m[io + INDEX_BYTES..|m|] == m[io + INDEX_BYTES..];
        SubSlice(m, m1, io + INDEX_BYTES, |m|, o, End(m, o));
      }
    }
    SameNodesHonest(H, m, m1, top, offs);
  }

  lemma PrefixLoads(m: Image, mem: seq<u8>, i: nat)
    requires |m| <= |mem| && mem[..|m|] == m && i + 4 <= |m|
    ensures Load32(mem, i) == Load32(m, i)
  {
    hide Load32;
    assert mem[0..|m|] == mem[..|m|] && m[0..|m|] == m;
    LoadSame(m, mem, i, 0, |m|);
  }

  lemma PrefixHeader(m: Image, mem: seq<u8>)
    requires HEADER_SIZE <= |m| <= |mem| && mem[..|m|] == m
    ensures HeaderAt(mem) == HeaderAt(m)
  {
    hide Load32;
    PrefixLoads(m, mem, 0);
    PrefixLoads(m, mem, 4);
    PrefixLoads(m, mem, 8);
    PrefixLoads(m, mem, 12);
    PrefixLoads(m, mem, 16);
    PrefixLoads(m, mem, 20);
    PrefixLoads(m, mem, 24);
    PrefixLoads(m, mem, 28);
  }

  lemma SliceHeader(m: Image, n: Image)
    requires HEADER_SIZE <= |m| && HEADER_SIZE <= |n| && m[0..HEADER_SIZE] == n[0..HEADER_SIZE]
    ensures HeaderAt(n) == HeaderAt(m)
  {
    hide Load32;
    LoadSame(m, n, 0, 0, HEADER_SIZE);
    LoadSame(m, n, 4, 0, HEADER_SIZE);
    LoadSame(m, n, 8, 0, HEADER_SIZE);
    LoadSame(m, n, 12, 0, HEADER_SIZE);
    LoadSame(m, n, 16, 0, HEADER_SIZE);
    LoadSame(m, n, 20, 0, HEADER_SIZE);
    LoadSame(m, n, 24, 0, HEADER_SIZE);
    LoadSame(m, n, 28, 0, HEADER_SIZE);
  }

  lemma PrefixIndex(m: Image, mem: seq<u8>, io: nat)
    requires |m| <= |mem| && mem[..|m|] == m && io + INDEX_BYTES <= |m|
    ensures IndexAt(mem, io) == IndexAt(m, io)
  {
    hide Load32;
    forall i | 0 <= i < TOP_SIZE ensures IndexAt(mem, io)[i] == IndexAt(m, io)[i] {
      PrefixLoads(m, mem, io + 4 * i);
    }
  }

  /** A saved image: what Save leaves behind. */
  ghost predicate Saved(H: Hasher<Key>, m: Image, top: seq<u32>, offs: set<nat>, io: nat) {
    && Honest(H, m, top, offs) && AllLinked(m, top, offs)
    && CACHE_LINE <= io <= 0xFFFF_FFFF && io % 4 == 0 && io + INDEX_BYTES <= |m| < 0x1_0000_0000_0000_0000
    && Clear(m, offs, io, io + INDEX_BYTES)
    && HeaderAt(m) == Header(MAGIC, VERSION, TOP_BITS, |m|, io)
    && IndexAt(m, io) == top
  }

  /** Round trip: the saved bytes at any other place are accepted exactly when the trie is at most 256
      deep, and what Open then installs is the saved image and index. */
  lemma RoundTrip(H: Hasher<Key>, m: Image, top: seq<u32>, offs: set<nat>, io: nat, mem: seq<u8>, committed: u64)
    requires Saved(H, m, top, offs, io)
    requires |m| <= committed <= |mem| < 0x1_0000_0000_0000_0000 && mem[..|m|] == m
    ensures SafeRoots(m, top)
    ensures Opens(mem, committed) <==> DepthAtMost(m, top, MAX_DEPTH)
    ensures HeaderAt(mem).highWater == |m| && HeaderAt(mem).indexOffset == io && Opened(mem) == (m, top)
  {
    hide WellFormed, View, Safe, Depth, CheckRoots, RootsFrom, HeaderAt, IndexAt, Separate, LinksUp;
    HonestRootsSafe(H, m, top, offs);
    PrefixHeader(m, mem);
    PrefixIndex(m, mem, io);
    AllNodesEnumerate(H, m, top, offs);
    NodesFit(H, m, top, offs);
    HonestTop(H, m, top, offs);
    ValidatorExact(m, top, |m| / NODE_SIZE);
  }

  // -----------------------------------------------------------------------------
  // Put and value stores after a Save.

  ghost predicate LinkKept(m0: Image, m1: Image, o: nat, c: nat)
    requires o + 40 <= |m0| && o + 40 <= |m1| && c < 4
  {
    Link(m1, o, c) == Link(m0, o, c) || (Link(m0, o, c) == 0 && Link(m1, o, c) >= |m0|)
  }

  ghost predicate NodeKept(m0: Image, m1: Image, o: nat)
    requires Fits(m0, o) && |m0| <= |m1|
  {
    && m1[o + 16..o + 24] == m0[o + 16..o + 24]
    && m1[o + 32..End(m0, o)] == m0[o + 32..End(m0, o)]
    && forall c: nat :: c < 4 ==> LinkKept(m0, m1, o, c)
  }

  /** What later Puts and value stores may do to the bytes of an earlier image: fill an empty child slot
      with an offset past the image's end, and change values. */
  ghost predicate Later(m0: Image, offs: set<nat>, m1: Image)
    requires AllFit(m0, offs)
  {
    && |m0| <= |m1|
    && (forall o: nat :: o in offs ==> NodeKept(m0, m1, o))
    && (forall lo: nat, hi: nat :: lo <= hi <= |m0| && Clear(m0, offs, lo, hi) ==> m1[lo..hi] == m0[lo..hi])
  }

  lemma LaterRefl(m: Image, offs: set<nat>)
    requires AllFit(m, offs)
    ensures Later(m, offs, m)
  {
  }

  lemma LaterFits(m0: Image, offs: set<nat>, m1: Image, o: nat)
    requires AllFit(m0, offs) && Later(m0, offs, m1) && o in offs
    ensures Fits(m1, o) && End(m1, o) == End(m0, o) && KeyAt(m1, o) == KeyAt(m0, o)
    ensures Load64(m1, o + 16) == Load64(m0, o + 16)
  {
    hide Load32;
    assert NodeKept(m0, m1, o);
    LoadSame(m0, m1, o + 32, o + 32, End(m0, o));
    LoadSame(m0, m1, o + 16, o + 16, o + 24);
    LoadSame(m0, m1, o + 20, o + 16, o + 24);
    SubSlice(m0, m1, o + 32, End(m0, o), o + 40, End(m0, o));
  }

  lemma LaterTransitive(m0: Image, offs0: set<nat>, m1: Image, offs1: set<nat>, m2: Image)
    requires AllFit(m0, offs0) && AllFit(m1, offs1) && offs0 <= offs1
    requires Later(m0, offs0, m1) && Later(m1, offs1, m2)
    requires forall o: nat :: o in offs1 && o !in offs0 ==> o >= |m0|
    ensures Later(m0, offs0, m2)
  {
    hide Load32, KeyAt;
    forall o: nat | o in offs0 ensures NodeKept(m0, m2, o) {
      LaterFits(m0, offs0, m1, o);
      assert NodeKept(m0, m1, o) && NodeKept(m1, m2, o);
      forall c: nat | c < 4 ensures LinkKept(m0, m2, o, c) {
        assert LinkKept(m0, m1, o, c) && LinkKept(m1, m2, o, c);
      }
    }
    forall lo: nat, hi: nat | lo <= hi <= |m0| && Clear(m0, offs0, lo, hi) ensures m2[lo..hi] == m0[lo..hi] {
      forall o: nat | o in offs1 ensures End(m1, o) <= lo || hi <= o {
        if o in offs0 { LaterFits(m0, offs0, m1, o); }
      }
      assert Clear(m1, offs1, lo, hi);
    }
  }

  /** An image and its nodes. */
  datatype Snapshot = Snapshot(m: Image, offs: set<nat>)

  /** Nodes kept, new ones appended past the old end. */
  ghost predicate Grows(a: Snapshot, b: Snapshot) {
    && AllFit(a.m, a.offs) && AllFit(b.m, b.offs) && a.offs <= b.offs
    && Later(a.m, a.offs, b.m)
    && forall o: nat :: o in b.offs && o !in a.offs ==> o >= |a.m|
  }

  lemma LaterSize(m0: Image, offs: set<nat>, m1: Image)
    requires AllFit(m0, offs) && Later(m0, offs, m1)
    ensures |m0| <= |m1|
  {
  }
}
