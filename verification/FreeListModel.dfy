/**
 The free list on values: the chain of returned blocks and the watermark of blocks never handed out.

 `FreeSeq` is the order in which blocks will be handed out if nothing is freed. An eager list starts with
 every block chained, a lazy one with an empty chain; both have the same `FreeSeq`, and each operation
 acts on `FreeSeq` alone.
 */
module FreeListModel {
  import opened Machine

  datatype List = List(chain: seq<nat>, initHigh: nat, maxBlocks: nat)

  function Range(lo: nat, hi: nat): (s: seq<nat>)
    requires lo <= hi
    ensures |s| == hi - lo && forall i :: 0 <= i < |s| ==> s[i] == lo + i
  {
    seq(hi - lo, i requires 0 <= i => lo + i)
  }

  ghost predicate Ok(f: List) {
    && f.initHigh <= f.maxBlocks
    && (forall i :: 0 <= i < |f.chain| ==> f.chain[i] < f.initHigh)
    && (forall i, j :: 0 <= i < j < |f.chain| ==> f.chain[i] != f.chain[j])
  }

  function Eager(maxBlocks: nat): List {
    List(Range(0, maxBlocks), maxBlocks, maxBlocks)
  }

  function Lazy(maxBlocks: nat): List {
    List([], 0, maxBlocks)
  }

  /** `blocksFree`. */
  function FreeCount(f: List): nat
    requires f.initHigh <= f.maxBlocks
  {
    |f.chain| + (f.maxBlocks - f.initHigh)
  }

  /** Prefer the chain of returned blocks; then the next block never used. */
  function Alloc(f: List): (List, Option<nat>)
    requires f.initHigh <= f.maxBlocks
  {
    if FreeCount(f) == 0 then (f, None)
    else if f.chain != [] then (f.(chain := f.chain[1..]), Some(f.chain[0]))
    else (f.(initHigh := f.initHigh + 1), Some(f.initHigh))
  }

  function Free(f: List, b: nat): List {
    f.(chain := [b] + f.chain)
  }

  function FreeSeq(f: List): seq<nat>
    requires f.initHigh <= f.maxBlocks
  {
    f.chain + Range(f.initHigh, f.maxBlocks)
  }

  lemma InFreeSeq(f: List, b: nat)
    requires f.initHigh <= f.maxBlocks
    ensures b in FreeSeq(f) <==> b in f.chain || f.initHigh <= b < f.maxBlocks
  {
    var never := Range(f.initHigh, f.maxBlocks);
    assert f.initHigh <= b < f.maxBlocks ==> never[b - f.initHigh] == b;
    assert b in FreeSeq(f) <==> b in f.chain || b in never;
  }

  /** Alloc hands out the head of `FreeSeq`, whatever the mix of chained and never used blocks. */
  lemma AllocActs(f: List)
    requires Ok(f)
    ensures FreeCount(f) == |FreeSeq(f)|
    ensures var (g, r) := Alloc(f);
      && Ok(g) && g.maxBlocks == f.maxBlocks
      && (FreeSeq(f) == [] ==> r == None && g == f)
      && (FreeSeq(f) != [] ==> r == Some(FreeSeq(f)[0]) && FreeSeq(g) == FreeSeq(f)[1..])
  {
    if f.chain == [] && f.initHigh < f.maxBlocks {
      assert FreeSeq(f)[1..] == Range(f.initHigh + 1, f.maxBlocks);
    } else if f.chain != [] {
      assert FreeSeq(f)[1..] == f.chain[1..] + Range(f.initHigh, f.maxBlocks);
    }
  }

  /** Free puts a block in front. */
  lemma FreeActs(f: List, b: nat)
    requires Ok(f) && b < f.maxBlocks && b !in FreeSeq(f)
    ensures b < f.initHigh && Ok(Free(f, b)) && FreeSeq(Free(f, b)) == [b] + FreeSeq(f)
  {
    InFreeSeq(f, b);
    assert FreeSeq(Free(f, b)) == [b] + FreeSeq(f);
  }

  /** The chain holds different blocks below the watermark. */
  lemma ChainFits(f: List)
    requires Ok(f)
    ensures |f.chain| <= f.initHigh
  {
    DistinctBelow(f.chain, f.initHigh);
  }

  lemma {:induction false} DistinctBelow(s: seq<nat>, n: nat)
    requires forall i :: 0 <= i < |s| ==> s[i] < n
    requires forall i, j :: 0 <= i < j < |s| ==> s[i] != s[j]
    ensures |s| <= n
    decreases n
  {
    if s != [] {
      assert s[0] < n;
      if n - 1 in s {
        var k :| 0 <= k < |s| && s[k] == n - 1;
        var r := s[..k] + s[k + 1..];
        assert forall i :: 0 <= i < |r| ==> r[i] == s[if i < k then i else i + 1];
        DistinctBelow(r, n - 1);
      } else {
        DistinctBelow(s, n - 1);
      }
    }
  }

  lemma FreshLists(maxBlocks: nat)
    ensures Ok(Eager(maxBlocks)) && Ok(Lazy(maxBlocks))
    ensures FreeSeq(Eager(maxBlocks)) == FreeSeq(Lazy(maxBlocks)) == Range(0, maxBlocks)
  {
  }

  // -----------------------------------------------------------------------------
  // Runs.

  datatype Op = AllocOp | FreeOp(b: nat)

  /** A list and the blocks its callers hold. */
  datatype Session = Session(f: List, live: set<nat>)

  /** Callers free only what they hold. */
  predicate Allowed(s: Session, op: Op) {
    op.FreeOp? ==> op.b in s.live
  }

  function Step(s: Session, op: Op): (Session, Option<nat>)
    requires s.f.initHigh <= s.f.maxBlocks
  {
    match op
    case AllocOp =>
      var (g, r) := Alloc(s.f);
      (Session(g, if r.Some? then s.live + {r.value} else s.live), r)
    case FreeOp(b) => (Session(Free(s.f, b), s.live - {b}), None)
  }

  /** Held and free blocks are all the blocks, each counted once. */
  ghost predicate SessionOk(s: Session) {
    && Ok(s.f)
    && (forall b: nat :: b < s.f.maxBlocks <==> b in s.live || b in FreeSeq(s.f))
    && (forall b: nat :: b in s.live ==> b !in FreeSeq(s.f))
    && |s.live| + |FreeSeq(s.f)| == s.f.maxBlocks
  }

  ghost predicate NoRepeat(s: seq<nat>) {
    forall i, j :: 0 <= i < j < |s| ==> s[i] != s[j]
  }

  lemma FreeSeqNoRepeat(f: List)
    requires Ok(f)
    ensures NoRepeat(FreeSeq(f))
  {
  }

  /** Every operation keeps the accounts, and Alloc never hands out a block that is held. */
  lemma StepKeeps(s: Session, op: Op)
    requires SessionOk(s) && Allowed(s, op)
    ensures SessionOk(Step(s, op).0)
    ensures Step(s, op).1.Some? ==> Step(s, op).1.value !in s.live && Step(s, op).1.value < s.f.maxBlocks
  {
    hide Alloc, Free, FreeSeq, Ok;
    OkBounds(s.f);
    AllocActs(s.f);
    FreeSeqNoRepeat(s.f);
    var (t, r) := Step(s, op);
    match op
    case AllocOp =>
      OkBounds(t.f);
      if FreeSeq(s.f) != [] { HeadMoves(FreeSeq(s.f), s.live, s.f.maxBlocks); }
    case FreeOp(b) =>
      FreeActs(s.f, b);
      OkBounds(t.f);
      FreeMax(s.f, b);
      BlockReturns(FreeSeq(s.f), s.live, b);
  }

  lemma FreeMax(f: List, b: nat)
    ensures Free(f, b).maxBlocks == f.maxBlocks
  {
  }

  lemma BlockReturns(free: seq<nat>, live: set<nat>, b: nat)
    requires b in live && forall c: nat :: c in live ==> c !in free
    ensures forall c: nat :: c in live || c in free <==> c in live - {b} || c in [b] + free
    ensures forall c: nat :: c in live - {b} ==> c !in [b] + free
    ensures |live - {b}| + 1 == |live|
  {
    assert forall c: nat :: c in [b] + free <==> c == b || c in free;
  }

  lemma OkBounds(f: List)
    requires Ok(f)
    ensures f.initHigh <= f.maxBlocks
  {
  }

  lemma HeadMoves(free: seq<nat>, live: set<nat>, n: nat)
    requires free != [] && NoRepeat(free)
    requires forall b: nat :: b < n <==> b in live || b in free
    requires forall b: nat :: b in live ==> b !in free
    ensures forall b: nat :: b < n <==> b in live + {free[0]} || b in free[1..]
    ensures forall b: nat :: b in live + {free[0]} ==> b !in free[1..]
    ensures |live + {free[0]}| == |live| + 1
  {
    var (first, rest) := (free[0], free[1..]);
    assert free == [first] + rest;
    assert forall b: nat :: b in free <==> b == first || b in rest;
    assert first !in rest by {
      assert forall i :: 0 <= i < |rest| ==> rest[i] == free[i + 1];
    }
    assert first < n && first !in live;
  }

  /** `sessions` is a run of `ops` from `start`, answering `results`. */
  ghost predicate Run(start: List, sessions: seq<Session>, ops: seq<Op>, results: seq<Option<nat>>) {
    && |sessions| == |ops| + 1 && |results| == |ops|
    && sessions[0] == Session(start, {})
    && forall i: nat :: i < |ops| ==>
         sessions[i].f.initHigh <= sessions[i].f.maxBlocks && Allowed(sessions[i], ops[i])
         && (sessions[i + 1], results[i]) == Step(sessions[i], ops[i])
  }

  lemma {:induction false} RunOk(start: List, sessions: seq<Session>, ops: seq<Op>, results: seq<Option<nat>>, i: nat)
    requires Run(start, sessions, ops, results) && i < |sessions|
    requires Ok(start) && FreeSeq(start) == Range(0, start.maxBlocks)
    ensures SessionOk(sessions[i]) && sessions[i].f.maxBlocks == start.maxBlocks
    decreases i
  {
    hide FreeSeq, Alloc, Free, SessionOk;
    if i == 0 {
      StartOk(start);
    } else {
      RunOk(start, sessions, ops, results, i - 1);
      StepKeeps(sessions[i - 1], ops[i - 1]);
      SameMax(sessions[i - 1], ops[i - 1]);
    }
  }

  lemma SameMax(s: Session, op: Op)
    requires s.f.initHigh <= s.f.maxBlocks
    ensures Step(s, op).0.f.maxBlocks == s.f.maxBlocks
  {
  }

  lemma StartOk(f: List)
    requires Ok(f) && FreeSeq(f) == Range(0, f.maxBlocks)
    ensures SessionOk(Session(f, {}))
  {
    hide FreeSeq;
    var all := Range(0, f.maxBlocks);
    forall b: nat ensures b < f.maxBlocks <==> b in all {
      if b < f.maxBlocks { assert all[b] == b; }
    }
  }

  /** Over every run no block is held twice, none is lost, and free plus held blocks are all blocks. */
  lemma NoDoubleHandout(start: List, sessions: seq<Session>, ops: seq<Op>, results: seq<Option<nat>>, i: nat)
    requires Run(start, sessions, ops, results) && i < |ops|
    requires start == Eager(start.maxBlocks) || start == Lazy(start.maxBlocks)
    ensures results[i].Some? ==> results[i].value < start.maxBlocks && results[i].value !in sessions[i].live
    ensures sessions[i].f.initHigh <= start.maxBlocks && sessions[i].f.maxBlocks == start.maxBlocks
    ensures FreeCount(sessions[i].f) + |sessions[i].live| == start.maxBlocks
    ensures ops[i] == AllocOp ==> (results[i] == None <==> |sessions[i].live| == start.maxBlocks)
  {
    hide FreeSeq, Alloc, Free, Ok;
    FreshLists(start.maxBlocks);
    RunOk(start, sessions, ops, results, i);
    var (s, op) := (sessions[i], ops[i]);
    assert (sessions[i + 1], results[i]) == Step(s, op);
    assert results[i] == Step(s, op).1;
    StepKeeps(s, op);
    OkBounds(s.f);
    AllocActs(s.f);
  }

  /** A lazy list and an eager list given the same calls return the same blocks, for ever. */
  lemma {:induction false} LazyIsEager(n: nat, lazy: seq<Session>, eager: seq<Session>, ops: seq<Op>,
                                       lr: seq<Option<nat>>, er: seq<Option<nat>>, i: nat)
    requires Run(Lazy(n), lazy, ops, lr) && Run(Eager(n), eager, ops, er) && i <= |ops|
    ensures lr[..i] == er[..i]
    ensures Ok(lazy[i].f) && Ok(eager[i].f) && FreeSeq(lazy[i].f) == FreeSeq(eager[i].f) && lazy[i].live == eager[i].live
    ensures FreeCount(lazy[i].f) == FreeCount(eager[i].f)
    decreases i
  {
    hide FreeSeq, Alloc, Free, SessionOk, Ok;
    FreshLists(n);
    RunOk(Lazy(n), lazy, ops, lr, i);
    RunOk(Eager(n), eager, ops, er, i);
    if i > 0 {
      LazyIsEager(n, lazy, eager, ops, lr, er, i - 1);
      RunOk(Lazy(n), lazy, ops, lr, i - 1);
      RunOk(Eager(n), eager, ops, er, i - 1);
      SameStep(lazy[i - 1], eager[i - 1], ops[i - 1]);
      assert lr[..i] == lr[..i - 1] + [lr[i - 1]] && er[..i] == er[..i - 1] + [er[i - 1]];
    }
    SessionFree(lazy[i]);
    SessionFree(eager[i]);
  }

  lemma SessionFree(s: Session)
    requires SessionOk(s)
    ensures Ok(s.f) && s.f.initHigh <= s.f.maxBlocks && FreeCount(s.f) == |FreeSeq(s.f)|
  {
  }

  /** The step and its answer depend on `FreeSeq` and the held blocks only. */
  lemma SameStep(l: Session, e: Session, op: Op)
    requires SessionOk(l) && SessionOk(e) && FreeSeq(l.f) == FreeSeq(e.f) && l.live == e.live && Allowed(l, op)
    ensures var ((l', lr), (e', er)) := (Step(l, op), Step(e, op));
      && lr == er && l'.live == e'.live
      && Ok(l'.f) && Ok(e'.f) && FreeSeq(l'.f) == FreeSeq(e'.f)
  {
    hide FreeSeq, Alloc, Free, Ok;
    OkBounds(l.f);
    OkBounds(e.f);
    match op
    case AllocOp =>
      AllocActs(l.f);
      AllocActs(e.f);
      OkBounds(Step(l, op).0.f);
      OkBounds(Step(e, op).0.f);
    case FreeOp(b) =>
      FreeActs(l.f, b);
      FreeActs(e.f, b);
      OkBounds(Step(l, op).0.f);
      OkBounds(Step(e, op).0.f);
  }
}
