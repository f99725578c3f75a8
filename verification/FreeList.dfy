/**
 The free list object: a chain of link words written inside the free blocks themselves.

 Blocks are numbered; block `i` lies at address `buffer + i * blockSize`. A link word holds the address
 of the next free block, or 0. `Valid` ties the words in memory to the list of `FreeListModel`.
 */
module FreeList {
  import opened Machine
  import opened Bytes
  import opened Words
  import opened Memory
  import Model = FreeListModel
  import Arena
  import ArenaModel

  datatype Status = OK | INVALID | OVERFLOW | NO_MEMORY | TOO_SMALL

  /** `rgm_freelist_effective_block_size`: room for a link, a multiple of 16, and 32 bits wide; or 0. */
  function EffectiveBlockSize(size: u64): (bs: u64)
    ensures bs == 0 <==> size > 0xFFFF_FFF0
    ensures bs != 0 ==> bs % 16 == 0 && size <= bs && 16 <= bs <= 0xFFFF_FFF0
    ensures bs != 0 ==> bs < 16 + size || bs == 16
  {
    var s := if size < 8 then 8 else size;
    var w := (s + 15) % 0x1_0000_0000_0000_0000;
    var r := w - w % 16;
    if r == 0 || r > 0xFFFF_FFFF then 0 else r
  }

  /** The address of block `i`. */
  function BlockStart(buffer: nat, bs: nat, i: nat): (a: nat)
    ensures a >= buffer
  {
    Product(i, bs);
    buffer + i * bs
  }

  lemma Product(i: nat, bs: nat)
    ensures i * bs >= 0
  {
  }

  /** Different blocks do not overlap. */
  lemma BlocksApart(buffer: nat, bs: nat, i: nat, j: nat)
    requires i < j
    ensures BlockStart(buffer, bs, i) + bs <= BlockStart(buffer, bs, j)
  {
    MulMono(1, j - i, bs, bs);
    assert j * bs == i * bs + (j - i) * bs;
  }

  lemma FirstBlock(buffer: nat, bs: nat)
    ensures BlockStart(buffer, bs, 0) == buffer
  {
  }

  /** Every block starts on a 16-byte boundary when the buffer does. */
  lemma BlocksAligned(buffer: nat, bs: nat, i: nat)
    requires buffer % 16 == 0 && bs % 16 == 0
    ensures BlockStart(buffer, bs, i) % 16 == 0
  {
    assert bs == 16 * (bs / 16) && buffer == 16 * (buffer / 16);
    MulAssoc(i, 16, bs / 16);
    MulAssoc(16, i, bs / 16);
    assert BlockStart(buffer, bs, i) == 16 * (buffer / 16 + i * (bs / 16));
  }

  /** Where the blocks are: `origin` is the address of the first of `size` bytes of memory. */
  datatype Layout = Layout(size: nat, origin: nat, buffer: nat, bs: nat, n: nat)

  predicate Fits(l: Layout) {
    && 0 < l.buffer && l.origin <= l.buffer && 16 <= l.bs && 0 < l.n
    && BlockStart(l.buffer, l.bs, l.n) - l.origin <= l.size
    && l.origin + l.size < 0x1_0000_0000_0000_0000
  }

  function Address(l: Layout, i: nat): (a: u64)
    requires Fits(l) && i < l.n
    ensures 0 < a && l.origin <= a && a - l.origin + l.bs <= l.size
  {
    BlocksApart(l.buffer, l.bs, i, l.n);
    BlockStart(l.buffer, l.bs, i)
  }

  lemma Apart(l: Layout, i: nat, j: nat)
    requires Fits(l) && i < l.n && j < l.n && i != j
    ensures Address(l, i) + l.bs <= Address(l, j) || Address(l, j) + l.bs <= Address(l, i)
  {
    hide BlockStart;
    if i < j { BlocksApart(l.buffer, l.bs, i, j); } else { BlocksApart(l.buffer, l.bs, j, i); }
  }

  /** The link word of block `i`. */
  function LinkWord(l: Layout, m: seq<u8>, i: nat): u64
    requires Fits(l) && i < l.n && |m| == l.size
  {
    Load64(m, Address(l, i) - l.origin)
  }

  /** `m1` differs from `m` inside block `b` only. */
  ghost predicate OnlyIn(l: Layout, m: seq<u8>, m1: seq<u8>, b: nat)
    requires Fits(l) && b < l.n
  {
    && |m| == |m1| == l.size
    && forall k :: 0 <= k < l.size && !(0 <= k - (Address(l, b) - l.origin) < l.bs) ==> m1[k] == m[k]
  }

  /** `m1` differs from `m` inside the blocks only. */
  ghost predicate OutsideKept(l: Layout, m: seq<u8>, m1: seq<u8>)
    requires Fits(l)
  {
    && |m| == |m1| == l.size
    && forall k :: 0 <= k < l.size && !(l.buffer <= l.origin + k < BlockStart(l.buffer, l.bs, l.n)) ==> m1[k] == m[k]
  }

  lemma OnlyInBlocks(l: Layout, m: seq<u8>, m1: seq<u8>, b: nat)
    requires Fits(l) && b < l.n && OnlyIn(l, m, m1, b)
    ensures OutsideKept(l, m, m1)
  {
    FirstBlock(l.buffer, l.bs);
    if b > 0 { BlocksApart(l.buffer, l.bs, 0, b); }
    BlocksApart(l.buffer, l.bs, b, l.n);
    hide BlockStart;
  }

  lemma LinkKept(l: Layout, m: seq<u8>, m1: seq<u8>, b: nat, j: nat)
    requires Fits(l) && b < l.n && j < l.n && j != b && OnlyIn(l, m, m1, b)
    ensures LinkWord(l, m1, j) == LinkWord(l, m, j)
  {
    hide Address;
    Apart(l, b, j);
    var at := Address(l, j) - l.origin;
    assert forall k :: at <= k < at + 8 ==> m1[k] == m[k];
    assert m1[at..at + 8] == m[at..at + 8];
    SameWord64(m1, at, m, at);
  }

  /** The `j`-th block of the chain as a link: its address, or 0 past the end. */
  function Entry(l: Layout, chain: seq<nat>, j: nat): u64
    requires Fits(l) && forall i: nat :: i < |chain| ==> chain[i] < l.n
  {
    if j < |chain| then Address(l, chain[j]) else 0
  }

  /** The chain of link words in memory is `chain`, entered at address `next`. */
  ghost predicate Chained(l: Layout, m: seq<u8>, chain: seq<nat>, next: u64)
    requires Fits(l) && |m| == l.size
  {
    && (forall j: nat :: j < |chain| ==> chain[j] < l.n)
    && next == Entry(l, chain, 0)
    && forall j: nat :: j < |chain| ==> LinkWord(l, m, chain[j]) == Entry(l, chain, j + 1)
  }

  /** Popping: the head's link word enters the rest of the chain. */
  lemma ChainPops(l: Layout, m: seq<u8>, chain: seq<nat>, next: u64)
    requires Fits(l) && |m| == l.size && Chained(l, m, chain, next)
    ensures next != 0 <==> chain != []
    ensures next != 0 ==> chain[0] < l.n && next == Address(l, chain[0]) && Chained(l, m, chain[1..], LinkWord(l, m, chain[0]))
  {
    hide Address, LinkWord;
    if chain != [] {
      var rest := chain[1..];
      forall j: nat | j < |rest| ensures LinkWord(l, m, rest[j]) == Entry(l, rest, j + 1) {
        assert rest[j] == chain[j + 1];
        assert j + 1 < |rest| ==> rest[j + 1] == chain[j + 2];
      }
    }
  }

  /** Bytes of a block that is not in the chain do not matter to it. */
  lemma ChainIgnores(l: Layout, m: seq<u8>, m1: seq<u8>, chain: seq<nat>, next: u64, b: nat)
    requires Fits(l) && |m| == l.size && Chained(l, m, chain, next)
    requires b < l.n && b !in chain && OnlyIn(l, m, m1, b)
    ensures Chained(l, m1, chain, next)
  {
    hide Address, LinkWord, OnlyIn;
    OnlyInSize(l, m, m1, b);
    forall j: nat | j < |chain| ensures LinkWord(l, m1, chain[j]) == LinkWord(l, m, chain[j]) {
      LinkKept(l, m, m1, b, chain[j]);
    }
  }

  lemma OnlyInSize(l: Layout, m: seq<u8>, m1: seq<u8>, b: nat)
    requires Fits(l) && b < l.n && OnlyIn(l, m, m1, b)
    ensures |m1| == |m| == l.size
  {
  }

  /** Pushing: a link word in the returned block, pointing at the old head. */
  lemma ChainPushes(l: Layout, m: seq<u8>, m1: seq<u8>, chain: seq<nat>, next: u64, b: nat)
    requires Fits(l) && |m| == l.size && Chained(l, m, chain, next)
    requires b < l.n && b !in chain && OnlyIn(l, m, m1, b) && |m1| == l.size && LinkWord(l, m1, b) == next
    ensures Chained(l, m1, [b] + chain, Address(l, b))
  {
    hide Address, LinkWord, OnlyIn;
    ChainIgnores(l, m, m1, chain, next, b);
    var c := [b] + chain;
    assert forall i: nat :: i < |c| ==> c[i] < l.n;
    forall j: nat | j < |c| ensures LinkWord(l, m1, c[j]) == Entry(l, c, j + 1) {
      assert j + 1 < |c| ==> c[j + 1] == chain[j];
      if j > 0 { assert c[j] == chain[j - 1]; }
    }
  }

  /** A 64-bit store at the start of a block. */
  lemma LinkStored(l: Layout, m: seq<u8>, m1: seq<u8>, b: nat, x: u64)
    requires Fits(l) && b < l.n && |m| == l.size && m1 == Put64(m, Address(l, b) - l.origin, x)
    requires forall i :: 0 <= i < |m| && !(Address(l, b) - l.origin <= i < Address(l, b) - l.origin + 8) ==> m1[i] == m[i]
    requires Load64(m1, Address(l, b) - l.origin) == x
    ensures OnlyIn(l, m, m1, b) && LinkWord(l, m1, b) == x
  {
    hide Put64, Load64, BlockStart;
  }

  /** Every block linked to the one after it. */
  lemma ChainFull(l: Layout, m: seq<u8>)
    requires Fits(l) && |m| == l.size
    requires forall j: nat :: j < l.n ==> LinkWord(l, m, j) == if j + 1 < l.n then Address(l, j + 1) else 0
    ensures Chained(l, m, Model.Range(0, l.n), Address(l, 0)) && Address(l, 0) == l.buffer
  {
    hide LinkWord;
    FirstBlock(l.buffer, l.bs);
  }

  /** The linking pass of an eager create: block 0 to 1 to 2, and 0 in the last. */
  method LinkAll(mem: array<u8>, origin: u64, buffer: u64, bs: u32, n: u32)
    requires Fits(Layout(mem.Length, origin, buffer, bs, n))
    modifies mem
    ensures var l := Layout(mem.Length, origin, buffer, bs, n);
      Chained(l, mem[..], Model.Range(0, n), buffer) && OutsideKept(l, old(mem[..]), mem[..])
  {
    hide BlockStart, Put64, LinkWord, OnlyIn, Fits, Address, Chained;
    var l := Layout(mem.Length, origin, buffer, bs, n);
    FitsSome(l);
    var i: nat := 0;
    while i + 1 < n
      invariant i < n
      invariant forall j: nat :: j < i ==> LinkWord(l, mem[..], j) == Address(l, j + 1)
      invariant OutsideKept(l, old(mem[..]), mem[..])
    {
      LinkOne(mem, l, i, Address(l, i + 1));
      i := i + 1;
    }
    LinkOne(mem, l, i, 0);
    ChainFull(l, mem[..]);
  }

  lemma FitsSome(l: Layout)
    requires Fits(l)
    ensures l.n > 0
  {
  }

  /** One link word; the others stay. */
  method LinkOne(mem: array<u8>, l: Layout, i: nat, link: u64)
    requires Fits(l) && mem.Length == l.size && i < l.n
    modifies mem
    ensures LinkWord(l, mem[..], i) == link
    ensures forall j: nat :: j < l.n && j != i ==> LinkWord(l, mem[..], j) == LinkWord(l, old(mem[..]), j)
    ensures OutsideKept(l, old(mem[..]), mem[..])
  {
    hide BlockStart, Put64, LinkWord, OnlyIn;
    ghost var before := mem[..];
    Store64(mem, Address(l, i) - l.origin, link);
    assert mem[..] == mem[..mem.Length];
    LinkStored(l, before, mem[..], i, link);
    OnlyInBlocks(l, before, mem[..], i);
    forall j: nat | j < l.n && j != i ensures LinkWord(l, mem[..], j) == LinkWord(l, before, j) {
      LinkKept(l, before, mem[..], i, j);
    }
  }

  class FreeList {
    var mem: array<u8>
    var origin: u64        // address of the first byte of `mem`
    var buffer: u64        // 0: not initialised
    var next: u64
    var blockSize: u32
    var maxBlocks: u32
    var blocksFree: u32
    var initHigh: u32
    ghost var chain: seq<nat>

    /** Zero-initialised. */
    constructor ()
      ensures buffer == 0 && next == 0
    {
      mem := new u8[0];
      origin, buffer, next := 0, 0, 0;
      blockSize, maxBlocks, blocksFree, initHigh := 0, 0, 0, 0;
      chain := [];
    }

    ghost function Where(): Layout
      reads this
    {
      Layout(mem.Length, origin, buffer, blockSize, maxBlocks)
    }

    ghost function State(): Model.List
      reads this
    {
      Model.List(chain, initHigh, maxBlocks)
    }

    ghost predicate Valid()
      reads this, mem
    {
      && Fits(Where()) && Model.Ok(State()) && blocksFree == Model.FreeCount(State())
      && Chained(Where(), mem[..], chain, next)
    }

    /** `rgm_freelist_install`: link every block to the next one. */
    method Install(mem: array<u8>, origin: u64, buffer: u64, blockSize: u32, maxBlocks: u32)
      requires Fits(Layout(mem.Length, origin, buffer, blockSize, maxBlocks))
      modifies this, mem
      ensures Valid() && State() == Model.Eager(maxBlocks)
      ensures this.mem == mem && Where() == Layout(mem.Length, origin, buffer, blockSize, maxBlocks)
      ensures OutsideKept(Where(), old(mem[..]), mem[..])
    {
      hide BlockStart, Chained, Fits;
      LinkAll(mem, origin, buffer, blockSize, maxBlocks);
      this.mem, this.origin, this.buffer, this.blockSize, this.maxBlocks := mem, origin, buffer, blockSize, maxBlocks;
      chain, initHigh := Model.Range(0, maxBlocks), maxBlocks;
      blocksFree := maxBlocks;
      next := buffer;
    }

    /** `rgm_freelist_install_lazy`: the buffer is not touched. */
    method InstallLazy(mem: array<u8>, origin: u64, buffer: u64, blockSize: u32, maxBlocks: u32)
      requires Fits(Layout(mem.Length, origin, buffer, blockSize, maxBlocks))
      modifies this
      ensures Valid() && State() == Model.Lazy(maxBlocks)
      ensures this.mem == mem && Where() == Layout(mem.Length, origin, buffer, blockSize, maxBlocks)
    {
      hide BlockStart, Fits;
      this.mem, this.origin, this.buffer, this.blockSize, this.maxBlocks := mem, origin, buffer, blockSize, maxBlocks;
      chain, initHigh := [], 0;
      blocksFree := maxBlocks;
      next := 0;
    }

    /** `rgFreeListAlloc`: the block's number and its address; None and 0 when nothing is free. */
    method Alloc() returns (ghost b: Option<nat>, address: u64)
      requires buffer != 0 ==> Valid()
      modifies this
      ensures old(buffer) == 0 ==> b == None && address == 0 && unchanged(this)
      ensures old(buffer) != 0 ==>
        && Valid() && mem == old(mem) && Where() == old(Where())
        && (State(), b) == Model.Alloc(old(State()))
        && (b.Some? ==> b.value < maxBlocks && address == Address(Where(), b.value)) && (b.None? ==> address == 0)
    {
      hide BlockStart, Chained;
      if buffer == 0 || blocksFree == 0 {
        return None, 0;
      }
      ghost var l := Where();
      ChainPops(l, mem[..], chain, next);
      if next != 0 {
        b, address := Some(chain[0]), next;
        next := Word64(mem, next - origin);
        assert mem[..] == mem[..mem.Length];
        chain := chain[1..];
      } else {
        b, address := Some(initHigh), Address(Layout(mem.Length, origin, buffer, blockSize, maxBlocks), initHigh);
        initHigh := initHigh + 1;
      }
      blocksFree := blocksFree - 1;
    }

    /** `rgFreeListAllocFast`, the header's inline copy. */
    method AllocFast() returns (ghost b: Option<nat>, address: u64)
      requires buffer != 0 ==> Valid()
      requires buffer == 0 ==> next == 0
      modifies this
      ensures old(buffer) == 0 ==> b == None && address == 0 && unchanged(this)
      ensures old(buffer) != 0 ==>
        && Valid() && mem == old(mem) && Where() == old(Where())
        && (State(), b) == Model.Alloc(old(State()))
        && (b.Some? ==> b.value < maxBlocks && address == Address(Where(), b.value)) && (b.None? ==> address == 0)
    {
      hide BlockStart, Chained;
      if next != 0 {
        ghost var l := Where();
        ChainPops(l, mem[..], chain, next);
        b, address := Some(chain[0]), next;
        next := Word64(mem, next - origin);
        assert mem[..] == mem[..mem.Length];
        chain := chain[1..];
        blocksFree := blocksFree - 1;
        return;
      }
      b, address := Alloc();
    }

    /** `rgFreeListFree` of a block that the caller holds; an inert list ignores the call. */
    method Free(address: u64, ghost b: nat)
      requires buffer != 0 ==> Valid() && b < maxBlocks && b !in Model.FreeSeq(State()) && address == Address(Where(), b)
      modifies this, mem
      ensures mem == old(mem) && Where() == old(Where())
      ensures old(buffer) == 0 ==> unchanged(this) && unchanged(mem)
      ensures old(buffer) != 0 ==> Valid() && State() == Model.Free(old(State()), b) && OnlyIn(Where(), old(mem[..]), mem[..], b)
    {
      hide BlockStart, Chained, Put64, Model.FreeSeq, OnlyIn, LinkWord;
      if buffer == 0 {
        return;
      }
      ghost var (before, f, l) := (mem[..], State(), Where());
      Model.FreeActs(f, b);
      Model.ChainFits(Model.Free(f, b));
      NotChained(f, b);
      StoreLink(l, address, b, next);
      ChainPushes(l, before, mem[..], chain, next, b);
      next := address;
      chain := [b] + chain;
      blocksFree := blocksFree + 1;
    }

    /** `*(uint8_t**)_ptr = link`. */
    method StoreLink(ghost l: Layout, address: u64, ghost b: nat, link: u64)
      requires l == Where() && Fits(l) && b < l.n && address == Address(l, b)
      modifies mem
      ensures OnlyIn(l, old(mem[..]), mem[..], b) && LinkWord(l, mem[..], b) == link
    {
      hide BlockStart, Put64;
      ghost var before := mem[..];
      Store64(mem, address - origin, link);
      assert mem[..] == mem[..mem.Length];
      LinkStored(l, before, mem[..], b, link);
    }

    lemma NotChained(f: Model.List, b: nat)
      requires f.initHigh <= f.maxBlocks && b !in Model.FreeSeq(f)
      ensures b !in f.chain
    {
      Model.InFreeSeq(f, b);
    }

    /** Callers may write anything into a block they hold: the chain does not run through it. */
    method UserWrites(address: u64, data: seq<u8>, ghost b: nat)
      requires Valid() && b < maxBlocks && b !in Model.FreeSeq(State()) && address == Address(Where(), b) && |data| <= blockSize
      modifies mem
      ensures Valid() && State() == old(State()) && next == old(next)
    {
      hide BlockStart, Chained, Model.FreeSeq;
      ghost var (before, f, l) := (mem[..], State(), Where());
      NotChained(f, b);
      CopyBytes(mem, address - origin, data);
      ChainIgnores(l, before, mem[..], chain, next, b);
    }

    /** `rgFreeListCreateFromMemory`; `bufferSize` is what the caller says lies at `buffer`. */
    method CreateFromMemory(mem: array<u8>, origin: u64, buffer: u64, bufferSize: u64, size: u64,
                            n: u32) returns (status: Status)
      requires 0 < buffer && origin <= buffer && buffer - origin + bufferSize <= mem.Length
      requires origin + mem.Length < 0x1_0000_0000_0000_0000
      modifies this, mem
      ensures status == if n == 0 then INVALID else if size > 0xFFFF_FFF0 then OVERFLOW
                        else if bufferSize < EffectiveBlockSize(size) * n then TOO_SMALL else OK
      ensures status == OK ==> Valid() && State() == Model.Eager(n) && this.blockSize == EffectiveBlockSize(size) && this.buffer == buffer
      ensures status == OK ==> this.mem == mem && OutsideKept(Where(), old(mem[..]), mem[..])
      ensures status != OK ==> unchanged(this) && unchanged(mem)
    {
      if n == 0 {
        return INVALID;
      }
      var bs := EffectiveBlockSize(size);
      if bs == 0 || bs > 0xFFFF_FFFF_FFFF_FFFF / n {
        assert bs == 0 by { if bs != 0 { NoOverflow(bs, n); } }
        return OVERFLOW;
      }
      if bufferSize < bs as int * n as int {
        return TOO_SMALL;
      }
      BlockTotal(buffer, bs, n);
      Install(mem, origin, buffer, bs, n);
      return OK;
    }

    /** `rgFreeListCreate`, and with `lazy` set `rgFreeListCreateLazy`: same checks and allocation, and lists
        with the same `FreeSeq`. */
    method Create(arena: Arena.Arena, size: u64, n: u32, lazy: bool, ok: bool) returns (status: Status)
      requires arena.Valid()
      modifies this, arena, arena.mem
      ensures status == if n == 0 then INVALID else if size > 0xFFFF_FFF0 then OVERFLOW
                        else if ArenaModel.AllocAligned(old(arena.State()), EffectiveBlockSize(size) * n, ArenaModel.DEFAULT_ALIGN, ok).1.None? then NO_MEMORY
                        else OK
      ensures status == OK ==>
        && Valid() && State() == (if lazy then Model.Lazy(n) else Model.Eager(n))
        && blockSize == EffectiveBlockSize(size) && mem == arena.mem && old(arena.pos) <= buffer - origin
        && OutsideKept(Where(), old(arena.mem[..]), arena.mem[..]) && (lazy ==> unchanged(arena.mem))
        && origin == arena.base && buffer % 16 == 0 && buffer - origin < old(arena.pos) + 16
        && maxBlocks == n && arena.pos == buffer - origin + blockSize as int * n as int
      ensures status != OK ==> unchanged(this) && arena.State() == old(arena.State()) && unchanged(arena.mem)
    {
      hide ArenaModel.AllocAligned, BlockStart;
      if n == 0 {
        return INVALID;
      }
      var bs := EffectiveBlockSize(size);
      if bs == 0 || bs > 0xFFFF_FFFF_FFFF_FFFF / n {
        assert bs == 0 by { if bs != 0 { NoOverflow(bs, n); } }
        return OVERFLOW;
      }
      NoOverflow(bs, n);
      ArenaModel.AllocCorrect(arena.State(), bs * n, ArenaModel.DEFAULT_ALIGN, ok);
      var block := arena.Alloc(bs * n, ok);
      if block.None? {
        return NO_MEMORY;
      }
      BlockTotal(arena.base + block.value, bs, n);
      if lazy {
        InstallLazy(arena.mem, arena.base, arena.base + block.value, bs, n);
      } else {
        Install(arena.mem, arena.base, arena.base + block.value, bs, n);
      }
      return OK;
    }
  }

  lemma NoOverflow(bs: u64, n: u32)
    requires 0 < bs <= 0xFFFF_FFFF && n > 0
    ensures 0 < bs * n < 0x1_0000_0000_0000_0000 && bs <= 0xFFFF_FFFF_FFFF_FFFF / n
  {
    MulMono(bs, 0xFFFF_FFFF, n, 0xFFFF_FFFF);
    MulMono(1, bs, 1, n);
    DivBound(bs, n);
  }

  lemma DivBound(bs: u64, n: u32)
    requires n > 0 && bs * n <= 0xFFFF_FFFF_FFFF_FFFF
    ensures bs <= 0xFFFF_FFFF_FFFF_FFFF / n
  {
    var q := 0xFFFF_FFFF_FFFF_FFFF / n;
    if bs > q { MulMono(q + 1, bs, n, n); }
  }

  lemma BlockTotal(buffer: nat, bs: nat, n: nat)
    ensures BlockStart(buffer, bs, n) == buffer + bs * n
  {
  }
}
