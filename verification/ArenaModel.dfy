/**
 The bump allocator's arithmetic on values: positions, padding, and the commit policy.

 Asking the OS to commit or decommit pages may fail; the outcome is a parameter. A reservation lies in
 the lower half of the address space, as user-space mappings do, so `base + reserved < 2^63`.
 Sizes and alignments come from callers and may be any 64-bit value; their sums wrap.
 */
module ArenaModel {
  import opened Machine
  import opened Words
  import Bits

  const DEFAULT_ALIGN: u64 := 16
  const COMMIT_MIN_CHUNK: u64 := 0x1_0000         // 64 KiB
  const COMMIT_MAX_STEP: u64 := 0x400_0000        // 64 MiB

  datatype Arena = Arena(base: u64, reserved: u64, committed: u64, pos: u64, page: u64)

  predicate Valid(a: Arena) {
    && a.page > 0 && a.page <= COMMIT_MIN_CHUNK
    && 0 < a.base && a.base + a.reserved < 0x8000_0000_0000_0000
    && Multiple(a.reserved, a.page)
    && a.pos <= a.committed <= a.reserved
  }

  /** `x & (x - 1)` is zero for powers of two (and for zero, which callers treat separately). */
  predicate PowerOfTwo(x: u64) {
    exists n | 0 <= n < 64 :: Pow2(n) == x
  }

  /** The test `x & (x - 1)` finds exactly the powers of two. */
  lemma PowerTest(x: u64)
    requires x > 0
    ensures PowerOfTwo(x) <==> Bits.AndBits(x, x - 1) == 0
  {
    hide Pow2, Bits.AndBits, Bits.Bit;
    Pow2Of64();
    var n := Bits.Bracket(x, 64);
    Bits.TopBit(x, n);
    if x == Pow2(n) {
      forall i: nat ensures Bits.Bit(Bits.AndBits(x, x - 1), i) <==> Bits.Bit(0, i) {
        Bits.BitAnd(x, x - 1, i);
        Bits.BitOfPow2(n, i);
        Bits.BitOfOnes(n, i);
        Bits.ZeroHasNoBits(i);
      }
      Bits.SameBits(Bits.AndBits(x, x - 1), 0);
    } else {
      Bits.TopBit(x - 1, n);
      Bits.BitAnd(x, x - 1, n);
      Bits.ZeroHasNoBits(n);
      forall m | 0 <= m < 64 ensures Pow2(m) != x {
        if m < n { BelowPower(m + 1, n); } else if m > n { BelowPower(n + 1, m); }
        DoublePower(m);
      }
    }
  }

  lemma BelowPower(m: nat, n: nat)
    requires m <= n
    ensures Pow2(m) <= Pow2(n)
  {
    Pow2Monotone(m, n);
  }

  lemma DoublePower(m: nat)
    ensures 0 < Pow2(m) < Pow2(m + 1)
  {
    Pow2Positive(m);
  }

  /** `(v + (a - 1)) & ~(a - 1)`. */
  function AlignUp(v: u64, a: u64): u64
    requires a > 0
  {
    var w := (v + (a - 1)) % 0x1_0000_0000_0000_0000;
    w - w % a
  }

  /** `(~addr + 1) & (a - 1)`. */
  function Padding(addr: u64, a: u64): u64
    requires a > 0
  {
    (0x1_0000_0000_0000_0000 - addr) % 0x1_0000_0000_0000_0000 % a
  }

  lemma DivMod(x: int, a: int)
    requires a > 0
    ensures x == (x / a) * a + x % a && 0 <= x % a < a
  {
  }

  lemma Spread(b: int, q: int, a: int)
    ensures (b - q) * a == b * a - q * a
  {
  }

  predicate Multiple(x: int, a: int) {
    a > 0 && x % a == 0
  }

  lemma ExactMultiple(x: int, z: int, a: int)
    requires a > 0 && x == z * a
    ensures Multiple(x, a)
  {
    DivMod(x, a);
    Spread(z, x / a, a);
    SmallMultiple(x % a, a, z - x / a) by { MulSwap(z - x / a, a); }
  }

  lemma MulSwap(x: int, y: int)
    ensures x * y == y * x
  {
  }

  lemma PaddingAligns(addr: u64, a: u64)
    requires PowerOfTwo(a) && addr > 0
    ensures a > 0 && Padding(addr, a) < a && Multiple(addr + Padding(addr, a), a)
  {
    hide Pow2, Multiple, Padding;
    var n :| 0 <= n < 64 && Pow2(n) == a;
    Pow2Positive(n);
    Pow2Add(64 - n, n);
    Pow2Of64();
    GapAligns(0x1_0000_0000_0000_0000, addr, a, Pow2(64 - n));
    PaddingIs(addr, a);
  }

  lemma PaddingIs(addr: u64, a: u64)
    requires addr > 0 && a > 0
    ensures Padding(addr, a) == (0x1_0000_0000_0000_0000 - addr) % a
  {
    var d := 0x1_0000_0000_0000_0000 - addr;
    assert d % 0x1_0000_0000_0000_0000 == d;
  }

  /** Rounding down the distance to a multiple above. */
  lemma GapAligns(total: nat, addr: nat, a: nat, q: nat)
    requires a > 0 && total == q * a && addr <= total
    ensures (total - addr) % a < a && Multiple(addr + (total - addr) % a, a)
  {
    hide Multiple;
    var d := total - addr;
    DivMod(d, a);
    Spread(q, d / a, a);
    ExactMultiple(addr + d % a, q - d / a, a);
  }

  lemma AlignUpBound(v: u64, a: u64)
    requires 0 < a && v + a <= 0x1_0000_0000_0000_0000
    ensures v <= AlignUp(v, a) < v + a
  {
  }

  /** What a commit asks for before rounding: the request, or twice what is committed but at most 64 MiB more,
      or 64 KiB, whichever is most. */
  function CommitWanted(committed: u64, required: u64): (want: nat)
    ensures want >= required && want >= 0x1_0000
    ensures want >= 2 * committed || want >= committed + 0x400_0000
    ensures want == required || want == 0x1_0000 || want == 2 * committed || (want == committed + 0x400_0000 && want < 2 * committed)
  {
    var more := if committed > 0x400_0000 then committed + 0x400_0000 else 2 * committed;
    if required >= more && required >= 0x1_0000 then required else if more >= 0x1_0000 then more else 0x1_0000
  }

  /** How far a commit request for `required` bytes extends the committed region. */
  function CommitTarget(a: Arena, required: u64): (target: u64)
    requires Valid(a) && a.committed < required <= a.reserved
    ensures required <= target <= a.reserved
    ensures target < required + COMMIT_MAX_STEP + a.page
    ensures var want := CommitWanted(a.committed, required);
      ((want <= target && Multiple(target, a.page)) || target == a.reserved) && target < want + a.page
  {
    var doubled := a.committed * 2;
    var t1 := if doubled > a.committed + COMMIT_MAX_STEP then a.committed + COMMIT_MAX_STEP else doubled;
    var t2 := if t1 < required then required else t1;
    var t3 := if t2 < COMMIT_MIN_CHUNK then COMMIT_MIN_CHUNK else t2;
    AlignUpBound(t3, a.page);
    AlignUpMultiple(t3, a.page);
    var t4 := AlignUp(t3, a.page);
    if t4 > a.reserved then a.reserved else t4
  }

  /** `rgm_arena_ensure_committed`; `ok` is the OS's answer if it is asked. */
  function EnsureCommitted(a: Arena, required: u64, ok: bool): (Arena, bool)
    requires Valid(a)
  {
    if required <= a.committed then (a, true)
    else if required > a.reserved then (a, false)
    else if !ok then (a, false)
    else (a.(committed := CommitTarget(a, required)), true)
  }

  function UserOffset(a: Arena, align: u64): (off: u64)
    requires Valid(a) && 0 < align <= 0x8000_0000_0000_0000
  {
    a.pos + Padding(a.base + a.pos, align)
  }

  /** `rgm_arena_alloc_internal`: the offset of the new block, or None. */
  function AllocSlow(a: Arena, size: u64, align: u64, ok: bool): (Arena, Option<u64>)
    requires Valid(a) && 0 < align <= 0x8000_0000_0000_0000
  {
    var off := UserOffset(a, align);
    var newPos := (off + size) % 0x1_0000_0000_0000_0000;
    if size == 0 || newPos < off || newPos > a.reserved then (a, None)
    else
      var (b, committed) := EnsureCommitted(a, newPos, ok);
      if committed then (b.(pos := newPos), Some(off)) else (a, None)
  }

  /** The alignment a request is served with; None when it is refused. */
  function EffectiveAlign(alignment: u64): (align: Option<u64>)
    ensures align.Some? ==> 8 <= align.value <= 0x8000_0000_0000_0000 && PowerOfTwo(align.value)
    ensures align.None? <==> alignment != 0 && !PowerOfTwo(alignment)
    ensures align.Some? ==> align.value >= alignment && (align.value == 8 || align.value == alignment)
  {
    if alignment != 0 && !PowerOfTwo(alignment) then None
    else if alignment < 8 then
      assert Pow2(3) == 8;
      Some(8)
    else
      PowerBound(alignment);
      Some(alignment)
  }

  lemma PowerBound(x: u64)
    requires PowerOfTwo(x)
    ensures x <= 0x8000_0000_0000_0000
  {
    var n :| 0 <= n < 64 && Pow2(n) == x;
    Pow2Monotone(n, 63);
    Pow2Of64();
  }

  lemma {:induction false} Pow2Monotone(m: nat, n: nat)
    requires m <= n
    ensures Pow2(m) <= Pow2(n)
  {
    if m < n { Pow2Monotone(m, n - 1); }
  }

  /** `rgArenaAllocAligned`, with its inline fast path. */
  function AllocAligned(a: Arena, size: u64, alignment: u64, ok: bool): (Arena, Option<u64>)
    requires Valid(a)
  {
    var align := EffectiveAlign(alignment);
    if size == 0 || align.None? then (a, None)
    else
      var off := UserOffset(a, align.value);
      var newPos := (off + size) % 0x1_0000_0000_0000_0000;
      if newPos >= off && newPos <= a.committed then (a.(pos := newPos), Some(off))
      else AllocSlow(a, size, align.value, ok)
  }

  /** The fast path is only a shortcut. */
  lemma FastEqualsSlow(a: Arena, size: u64, alignment: u64, ok: bool)
    requires Valid(a) && EffectiveAlign(alignment).Some?
    ensures AllocAligned(a, size, alignment, ok) == AllocSlow(a, size, EffectiveAlign(alignment).value, ok)
  {
    hide Padding;
  }

  /** Exactly when an allocation succeeds, and what it then returns. */
  lemma AllocCorrect(a: Arena, size: u64, alignment: u64, ok: bool)
    requires Valid(a)
    ensures var (b, r) := AllocAligned(a, size, alignment, ok);
      Valid(b) && b == a.(pos := b.pos, committed := b.committed) && (r.None? ==> b == a)
    ensures AllocAligned(a, size, alignment, ok).1.Some? <==>
      && size > 0 && EffectiveAlign(alignment).Some?
      && var end := UserOffset(a, EffectiveAlign(alignment).value) + size;
         end <= a.reserved && (ok || end <= a.committed)
    ensures var (b, r) := AllocAligned(a, size, alignment, ok); r.Some? ==>
      var align := EffectiveAlign(alignment).value;
      && a.pos <= r.value < a.pos + align && Multiple(a.base + r.value, align)
      && b.pos == r.value + size && a.committed <= b.committed
  {
    hide Padding, CommitTarget, PowerOfTwo, Multiple;
    var align := EffectiveAlign(alignment);
    if align.Some? {
      PaddingAligns(a.base + a.pos, align.value);
      FastEqualsSlow(a, size, alignment, ok);
    }
  }

  // -----------------------------------------------------------------------------
  // Runs.

  /** `rgArenaPop`: more than the current position is refused. */
  function Pop(a: Arena, size: u64): Arena {
    if size > a.pos then a else a.(pos := a.pos - size)
  }

  const INVALID_SAVE_POINT: u64 := 0xFFFF_FFFF_FFFF_FFFF

  function Restore(a: Arena, save: u64): Arena {
    if save == INVALID_SAVE_POINT || save > a.pos then a else a.(pos := save)
  }

  /** `rgm_arena_shrink_keep` on an anonymous arena. */
  function Shrink(a: Arena, slack: u64, ok: bool): Arena
    requires Valid(a)
  {
    if slack > INVALID_SAVE_POINT - a.pos then a
    else
      var kept := AlignUp(a.pos + slack, a.page);
      if kept < a.pos || kept >= a.committed || !ok then a else a.(committed := kept)
  }

  datatype Op =
    | Alloc(size: u64, alignment: u64, ok: bool)
    | PopBytes(size: u64)
    | RestoreTo(save: u64)
    | Clear
    | ShrinkTo(slack: u64, ok: bool)

  /** A block handed out and not rewound past. */
  datatype Block = Block(off: u64, size: u64, align: u64)

  /** `commits` counts the successful requests to the OS. */
  datatype Session = Session(arena: Arena, live: seq<Block>, commits: nat)

  /** The blocks that a rewind to `pos` leaves whole. */
  function Below(live: seq<Block>, pos: u64): seq<Block> {
    if live == [] then []
    else
      var last := live[|live| - 1];
      if last.off + last.size <= pos then live else Below(live[..|live| - 1], pos)
  }

  function Step(s: Session, op: Op): Session
    requires Valid(s.arena)
  {
    match op
    case Alloc(size, alignment, ok) =>
      var (b, r) := AllocAligned(s.arena, size, alignment, ok);
      Session(b,
              if r.Some? then s.live + [Block(r.value, size, EffectiveAlign(alignment).GetOr(0))] else s.live,
              s.commits + if b.committed != s.arena.committed then 1 else 0)
    case PopBytes(size) => Rewound(s, Pop(s.arena, size))
    case RestoreTo(save) => Rewound(s, Restore(s.arena, save))
    case Clear => Rewound(s, s.arena.(pos := 0))
    case ShrinkTo(slack, ok) => s.(arena := Shrink(s.arena, slack, ok))
  }

  function Rewound(s: Session, a: Arena): Session {
    s.(arena := a, live := Below(s.live, a.pos))
  }

  /** Live blocks are in order, disjoint, aligned and below the position. */
  ghost predicate LiveOk(a: Arena, live: seq<Block>) {
    && (forall i :: 0 <= i < |live| ==>
          live[i].size > 0 && live[i].off + live[i].size <= a.pos && Multiple(a.base + live[i].off, live[i].align))
    && (forall i, j :: 0 <= i < j < |live| ==> live[i].off + live[i].size <= live[j].off)
  }

  ghost predicate SessionOk(s: Session) {
    Valid(s.arena) && LiveOk(s.arena, s.live)
  }

  /** Every operation keeps the arena's bounds and the live blocks disjoint and aligned. */
  lemma StepKeeps(s: Session, op: Op)
    requires SessionOk(s)
    ensures SessionOk(Step(s, op))
  {
    hide Padding, CommitTarget, PowerOfTwo, AllocAligned, Below, Multiple, LiveOk;
    match op
    case Alloc(size, alignment, ok) => AllocKeeps(s, size, alignment, ok);
    case PopBytes(size) => BelowOk(s.arena, s.live, Pop(s.arena, size).pos);
    case RestoreTo(save) => BelowOk(s.arena, s.live, Restore(s.arena, save).pos);
    case Clear => BelowOk(s.arena, s.live, 0);
    case ShrinkTo(slack, ok) => ShrinkKeeps(s, slack, ok);
  }

  lemma AllocKeeps(s: Session, size: u64, alignment: u64, ok: bool)
    requires SessionOk(s)
    ensures SessionOk(Step(s, Alloc(size, alignment, ok)))
  {
    hide Padding, CommitTarget, PowerOfTwo, AllocAligned, Multiple;
    AllocCorrect(s.arena, size, alignment, ok);
  }

  lemma ShrinkKeeps(s: Session, slack: u64, ok: bool)
    requires SessionOk(s)
    ensures SessionOk(Step(s, ShrinkTo(slack, ok)))
  {
  }

  lemma {:induction false} BelowPrefix(live: seq<Block>, pos: u64)
    ensures Below(live, pos) <= live
    ensures var n := |Below(live, pos)|; n > 0 ==> live[n - 1].off + live[n - 1].size <= pos
    ensures forall i :: |Below(live, pos)| <= i < |live| ==> live[i].off + live[i].size > pos
    decreases |live|
  {
    if live != [] && live[|live| - 1].off + live[|live| - 1].size > pos {
      BelowPrefix(live[..|live| - 1], pos);
    }
  }

  /** A rewind keeps exactly the blocks that lie wholly below the new position. */
  lemma BelowOk(a: Arena, live: seq<Block>, pos: u64)
    requires LiveOk(a, live) && pos <= a.pos
    ensures LiveOk(a.(pos := pos), Below(live, pos))
    ensures forall i :: 0 <= i < |live| ==> (live[i].off + live[i].size <= pos <==> i < |Below(live, pos)|)
  {
    hide Multiple, Below;
    BelowPrefix(live, pos);
    var n := |Below(live, pos)|;
    assert forall i :: 0 <= i < n ==> Below(live, pos)[i] == live[i];
  }

  lemma {:induction false} RunKeeps(states: seq<Session>, ops: seq<Op>, i: nat)
    requires |states| == |ops| + 1 && i < |states|
    requires Valid(states[0].arena) && states[0].live == []
    requires forall i :: 0 <= i < |ops| && Valid(states[i].arena) ==> states[i + 1] == Step(states[i], ops[i])
    ensures SessionOk(states[i])
  {
    if i > 0 {
      RunKeeps(states, ops, i - 1);
      StepKeeps(states[i - 1], ops[i - 1]);
    }
  }

  /** A block that has been handed out stays live until a rewind goes below its end. */
  lemma {:induction false} StaysLive(states: seq<Session>, ops: seq<Op>, j: nat, n: nat, block: Block)
    requires |states| == |ops| + 1 && j < n < |states| && ops[j].Alloc?
    requires Valid(states[0].arena) && states[0].live == []
    requires forall i :: 0 <= i < |ops| && Valid(states[i].arena) ==> states[i + 1] == Step(states[i], ops[i])
    requires Valid(states[j].arena) && EffectiveAlign(ops[j].alignment).Some?
    requires AllocAligned(states[j].arena, ops[j].size, ops[j].alignment, ops[j].ok).1 == Some(block.off)
    requires block == Block(block.off, ops[j].size, EffectiveAlign(ops[j].alignment).value)
    requires forall c :: j < c <= n ==> block.off + block.size <= states[c].arena.pos
    ensures block in states[n].live
    decreases n
  {
    hide LiveOk, AllocAligned, Below, EffectiveAlign, Valid;
    RunKeeps(states, ops, n - 1);
    SessionValid(states[n - 1]);
    assert states[n - 1 + 1] == Step(states[n - 1], ops[n - 1]);
    if n - 1 > j {
      StaysLive(states, ops, j, n - 1, block);
      KeptByStep(states[n - 1], ops[n - 1], block);
    } else {
      AddedByStep(states[j], ops[j], block);
    }
  }

  lemma SessionValid(s: Session)
    requires SessionOk(s)
    ensures Valid(s.arena)
  {
  }

  lemma AddedByStep(s: Session, op: Op, block: Block)
    requires Valid(s.arena) && op.Alloc? && EffectiveAlign(op.alignment).Some?
    requires AllocAligned(s.arena, op.size, op.alignment, op.ok).1 == Some(block.off)
    requires block == Block(block.off, op.size, EffectiveAlign(op.alignment).value)
    ensures block in Step(s, op).live
  {
    hide AllocAligned, EffectiveAlign;
    assert Step(s, op).live[|s.live|] == block;
  }

  lemma KeptByStep(s: Session, op: Op, block: Block)
    requires SessionOk(s) && block in s.live && block.off + block.size <= Step(s, op).arena.pos
    ensures block in Step(s, op).live
  {
    hide AllocAligned, EffectiveAlign, Below, Multiple, CommitTarget;
    var i: nat :| i < |s.live| && s.live[i] == block;
    var t := Step(s, op);
    match op
    case Alloc(_, _, _) => assert t.live[i] == block;
    case ShrinkTo(_, _) =>
    case _ => KeptByRewind(s, t.arena.pos, i);
  }

  lemma KeptByRewind(s: Session, pos: u64, i: nat)
    requires SessionOk(s) && pos <= s.arena.pos && i < |s.live| && s.live[i].off + s.live[i].size <= pos
    ensures s.live[i] in Below(s.live, pos)
  {
    hide Below, Multiple;
    BelowOk(s.arena, s.live, pos);
    BelowPrefix(s.live, pos);
    assert Below(s.live, pos)[i] == s.live[i];
  }

  // -----------------------------------------------------------------------------
  // What rewinding and shrinking give back.

  /** Popping the size of the newest block rewinds to where that block began; padding before it is not
      recovered, and is less than the alignment. */
  lemma PopUndoes(a: Arena, size: u64, alignment: u64, ok: bool)
    requires Valid(a)
    ensures var (b, r) := AllocAligned(a, size, alignment, ok); r.Some? ==>
      && Pop(b, size) == b.(pos := r.value)
      && a.pos <= Pop(b, size).pos < a.pos + EffectiveAlign(alignment).value
  {
    hide AllocAligned, PowerOfTwo, UserOffset;
    AllocCorrect(a, size, alignment, ok);
  }

  /** The blocks of `live0`, then blocks that begin at `save` or above. */
  ghost predicate Scoped(live0: seq<Block>, live: seq<Block>, save: u64) {
    live0 <= live && forall i :: |live0| <= i < |live| ==> live[i].off >= save
  }

  lemma StepScoped(s0: Session, s: Session, op: Op)
    requires SessionOk(s0) && SessionOk(s) && Scoped(s0.live, s.live, s0.arena.pos)
    requires s0.arena.pos <= s.arena.pos && s0.arena.pos <= Step(s, op).arena.pos
    ensures Scoped(s0.live, Step(s, op).live, s0.arena.pos)
  {
    hide AllocAligned, PowerOfTwo, UserOffset, Below, Multiple, CommitTarget;
    match op
    case Alloc(size, alignment, ok) => AllocCorrect(s.arena, size, alignment, ok);
    case PopBytes(size) => RewindScoped(s0, s, Pop(s.arena, size).pos);
    case RestoreTo(save) => RewindScoped(s0, s, Restore(s.arena, save).pos);
    case Clear => RewindScoped(s0, s, 0);
    case ShrinkTo(_, _) =>
  }

  lemma RewindScoped(s0: Session, s: Session, pos: u64)
    requires SessionOk(s0) && SessionOk(s) && Scoped(s0.live, s.live, s0.arena.pos)
    requires s0.arena.pos <= pos <= s.arena.pos
    ensures Scoped(s0.live, Below(s.live, pos), s0.arena.pos)
  {
    hide Multiple, Below;
    BelowOk(s.arena, s.live, pos);
    BelowPrefix(s.live, pos);
    var n := |s0.live|;
    if n > 0 { assert s.live[n - 1] == s0.live[n - 1]; }
  }

  lemma ScopeStart(s: Session)
    ensures Scoped(s.live, s.live, s.arena.pos)
  {
  }

  lemma {:induction false} ScopeRun(states: seq<Session>, ops: seq<Op>, i: nat)
    requires |states| == |ops| + 1 && i < |states| && SessionOk(states[0])
    requires forall j: nat :: j < |ops| && Valid(states[j].arena) ==> states[j + 1] == Step(states[j], ops[j])
    requires forall j: nat :: j < |states| ==> states[0].arena.pos <= states[j].arena.pos
    ensures SessionOk(states[i]) && Scoped(states[0].live, states[i].live, states[0].arena.pos)
    decreases i
  {
    hide Step, LiveOk, Scoped, Valid;
    if i == 0 {
      ScopeStart(states[0]);
    } else {
      ScopeRun(states, ops, i - 1);
      assert states[i - 1 + 1] == Step(states[i - 1], ops[i - 1]);
      StepKeeps(states[i - 1], ops[i - 1]);
      StepScoped(states[0], states[i - 1], ops[i - 1]);
    }
  }

  /** Save and Restore: whatever was allocated, popped and restored in between, as long as the position
      never fell below the save point, restoring leaves exactly the blocks that were live at the save. */
  lemma RestoreReturns(states: seq<Session>, ops: seq<Op>)
    requires |states| == |ops| + 1 && SessionOk(states[0])
    requires forall j: nat :: j < |ops| && Valid(states[j].arena) ==> states[j + 1] == Step(states[j], ops[j])
    requires forall j: nat :: j < |states| ==> states[0].arena.pos <= states[j].arena.pos
    ensures var (s0, s1) := (states[0], states[|ops|]);
      && SessionOk(s1)
      && var t := Step(s1, RestoreTo(s0.arena.pos)); t.live == s0.live && t.arena.pos == s0.arena.pos
  {
    hide Step, LiveOk;
    ScopeRun(states, ops, |ops|);
    RestoreScoped(states[0], states[|ops|]);
  }

  lemma RestoreScoped(s0: Session, s1: Session)
    requires SessionOk(s0) && SessionOk(s1) && Scoped(s0.live, s1.live, s0.arena.pos) && s0.arena.pos <= s1.arena.pos
    ensures var t := Step(s1, RestoreTo(s0.arena.pos)); t.live == s0.live && t.arena.pos == s0.arena.pos
  {
    hide Multiple, Below;
    var (n, pos) := (|s0.live|, s0.arena.pos);
    RewindScoped(s0, s1, pos);
    BelowOk(s1.arena, s1.live, pos);
    BelowPrefix(s1.live, pos);
    forall i | n <= i < |s1.live| ensures s1.live[i].off + s1.live[i].size > pos {
      LiveSized(s1, i);
    }
    var kept := Below(s1.live, pos);
    assert |kept| == n;
    assert kept == s0.live;
  }

  lemma LiveSized(s: Session, i: nat)
    requires SessionOk(s) && i < |s.live|
    ensures s.live[i].size > 0
  {
  }

  /** The rounding in a shrink wraps past the guards: only at position 0, with a slack in the last page
      below 2^64. */
  predicate SlackWraps(a: Arena, slack: u64) {
    a.pos == 0 && slack + a.page > 0x1_0000_0000_0000_0000
  }

  /** A shrink keeps what it was asked to keep, except in exactly that case: then it gives everything back. */
  lemma ShrinkRetains(a: Arena, slack: u64, ok: bool)
    requires Valid(a)
    ensures var c := Shrink(a, slack, ok).committed;
      c >= (if a.pos + slack < a.committed then a.pos + slack else a.committed) <==> !(SlackWraps(a, slack) && ok && a.committed > 0)
    ensures SlackWraps(a, slack) && ok ==> Shrink(a, slack, ok).committed == 0
  {
    hide Multiple;
    var v := a.pos + slack;
    if v < 0x1_0000_0000_0000_0000 {
      if v + a.page <= 0x1_0000_0000_0000_0000 {
        AlignUpBound(v, a.page);
      } else {
        AlignUpWraps(v, a.page);
      }
    }
  }

  lemma AlignUpWraps(v: u64, a: u64)
    requires 0 < a && v + a > 0x1_0000_0000_0000_0000
    ensures AlignUp(v, a) == 0
  {
    WrapOnce(v + (a - 1));
    ModBelow(v + (a - 1) - 0x1_0000_0000_0000_0000, a);
  }

  lemma WrapOnce(x: nat)
    requires 0x1_0000_0000_0000_0000 <= x < 0x2_0000_0000_0000_0000
    ensures x % 0x1_0000_0000_0000_0000 == x - 0x1_0000_0000_0000_0000
  {
  }

  lemma ModBelow(w: nat, a: nat)
    requires w < a
    ensures w % a == w
  {
  }

  /** When a shrink does something, it keeps whole pages and less than a page more than asked. */
  lemma ShrinkIsTight(a: Arena, slack: u64, ok: bool)
    requires Valid(a)
    ensures var b := Shrink(a, slack, ok); b != a ==>
      b == a.(committed := b.committed) && b.committed < a.committed && Multiple(b.committed, a.page) && b.committed < a.pos + slack + a.page
    ensures ok ==> Shrink(a, slack, ok).committed < a.pos + slack + a.page
    ensures !ok ==> Shrink(a, slack, ok) == a
  {
    var v := a.pos + slack;
    if v < 0x1_0000_0000_0000_0000 {
      if v + a.page <= 0x1_0000_0000_0000_0000 {
        AlignUpBound(v, a.page);
      } else {
        AlignUpWraps(v, a.page);
      }
      AlignUpMultiple(v, a.page);
    }
  }

  lemma AlignUpMultiple(v: u64, a: u64)
    requires 0 < a
    ensures Multiple(AlignUp(v, a), a)
  {
    var w := (v + (a - 1)) % 0x1_0000_0000_0000_0000;
    DivMod(w, a);
    ExactMultiple(AlignUp(v, a), w / a, a);
  }

  /** The largest slack, meant to keep everything, on an empty arena with one chunk committed. */
  lemma LargestSlackLosesAll()
    ensures var a := Arena(0x10000, 0x10000, 0x10000, 0, 0x1000);
      Valid(a) && Shrink(a, 0xFFFF_FFFF_FFFF_FFFF, true).committed == 0
  {
    hide AlignUp;
    AlignUpWraps(0xFFFF_FFFF_FFFF_FFFF, 0x1000);
  }

  // -----------------------------------------------------------------------------
  // How often the OS is asked for memory.

  /** After `n` commits that were not cut short by the end of the reservation. */
  ghost predicate Climbed(n: nat, committed: u64) {
    || n == 0
    || (n <= 11 && committed >= COMMIT_MIN_CHUNK * Pow2(n - 1))
    || (n > 11 && committed >= COMMIT_MAX_STEP * (n - 10))
  }

  ghost predicate CommitsOk(s: Session) {
    || Climbed(s.commits, s.arena.committed)
    || (s.commits > 0 && Climbed(s.commits - 1, s.arena.committed) && s.arena.committed == s.arena.reserved)
  }

  lemma Powers()
    ensures Pow2(0) == 1 && Pow2(1) == 2 && Pow2(2) == 4 && Pow2(3) == 8 && Pow2(4) == 16 && Pow2(5) == 32
    ensures Pow2(6) == 64 && Pow2(7) == 128 && Pow2(8) == 256 && Pow2(9) == 512 && Pow2(10) == 1024
  {
    assert Pow2(2) == 4;
    assert Pow2(4) == 16;
    assert Pow2(6) == 64;
    assert Pow2(8) == 256;
  }

  lemma TargetClimbs(a: Arena, required: u64, n: nat)
    requires Valid(a) && a.committed < required <= a.reserved && Climbed(n, a.committed)
    ensures var t := CommitTarget(a, required); Climbed(n + 1, t) || (Climbed(n, t) && t == a.reserved)
  {
    Powers();
    var t := CommitTarget(a, required);
    TargetAtLeast(a, required);
    if 0 < n <= 10 {
      Pow2Monotone(n, 10);
    }
  }

  lemma TargetAtLeast(a: Arena, required: u64)
    requires Valid(a) && a.committed < required <= a.reserved
    ensures var t := CommitTarget(a, required);
      t == a.reserved || (t >= COMMIT_MIN_CHUNK && t >= if a.committed <= COMMIT_MAX_STEP then 2 * a.committed else a.committed + COMMIT_MAX_STEP)
    ensures CommitTarget(a, required) >= a.committed
  {
    hide AlignUp, Multiple;
    var step := if a.committed * 2 > a.committed + COMMIT_MAX_STEP then a.committed + COMMIT_MAX_STEP else a.committed * 2;
    var asked := if step < required then required else step;
    AlignUpBound(if asked < COMMIT_MIN_CHUNK then COMMIT_MIN_CHUNK else asked, a.page);
  }

  lemma StepCommits(s: Session, op: Op)
    requires SessionOk(s) && CommitsOk(s) && !op.ShrinkTo?
    ensures CommitsOk(Step(s, op))
  {
    hide Padding, CommitTarget, PowerOfTwo, Below, Multiple, Climbed;
    if op.Alloc? && Step(s, op).arena.committed != s.arena.committed {
      var required := Step(s, op).arena.pos;
      FastEqualsSlow(s.arena, op.size, op.alignment, op.ok);
      if Climbed(s.commits, s.arena.committed) {
        TargetClimbs(s.arena, required, s.commits);
      }
    }
  }

  lemma CommitCount(s: Session)
    requires CommitsOk(s)
    ensures s.commits <= 11 + s.arena.committed / COMMIT_MAX_STEP
  {
    Powers();
  }

  /** Without shrinking, the number of commits is logarithmic at first and then one per 64 MiB. */
  lemma {:induction false} FewCommits(states: seq<Session>, ops: seq<Op>, i: nat)
    requires |states| == |ops| + 1 && i < |states|
    requires Valid(states[0].arena) && states[0].live == [] && states[0].commits == 0
    requires forall i :: 0 <= i < |ops| ==> !ops[i].ShrinkTo? && (Valid(states[i].arena) ==> states[i + 1] == Step(states[i], ops[i]))
    ensures CommitsOk(states[i])
    ensures states[i].commits <= 11 + states[i].arena.committed / COMMIT_MAX_STEP
  {
    hide Step;
    if i > 0 {
      FewCommits(states, ops, i - 1);
      RunKeeps(states, ops, i - 1);
      StepCommits(states[i - 1], ops[i - 1]);
    }
    CommitCount(states[i]);
  }
}
