/**
 How long a call of Put or Get can take, in its own steps, whatever other threads do.

 Every step either ends the walk or moves it past a node it has not met before, so a call is bounded by
 the nodes that have been published. The only step that leads back is a CAS that fails, and it fails only
 because another thread has just filled the same slot.
 */
module HashTrieProgress {
  import opened Descent
  import opened TrieShape
  import opened HashTrie
  import opened HashTrieSafety
  import AtomicMap

  // -----------------------------------------------------------------------------
  // Nobody waits.

  /** The one step the code takes next from each program point; `free` is an address its arena may hand
      out, `op` the call an idle thread makes. */
  function NextAction<K>(pc: Pc<K>, free: nat, op: Op<K>): Action<K> {
    match pc
    case Idle => Invoke(op)
    case AtSlot(_, _, _, _) => Load
    case Empty(_, _, _, _) => Alloc(free)
    case Ready(_, _, _, _, _) => Cas
    case AtNode(_, _, _, _) => Compare
    case Matched(_, _) => Access
    case Done(_, _) => Respond
  }

  /** Nobody waits for anybody: from every reachable state every thread can take its next step, and every
      pointer it follows leads to a node that is allocated and filled in. */
  lemma NeverStuck<K(!new)>(H: Hasher<K>, s: State<K>, i: nat, free: nat, op: Op<K>)
    requires Inv(H, s) && i < |s.pc| && free != 0 && free !in s.trie.heap
    ensures Enabled(s, i, NextAction(s.pc[i], free, op))
    ensures s.pc[i].Empty? ==> Enabled(s, i, OutOfMemory)
    ensures s.pc[i].Ready? ==> s.pc[i].node in s.trie.heap
  {
    hide At, Path, RegAt;
    assert ThreadOk(H, s, i);
    match s.pc[i]
    case AtSlot(o, slot, reg, n) => SlotOnPath(H, s.trie, o.key, n);
    case Ready(o, slot, reg, n, node) => SlotOnPath(H, s.trie, o.key, n);
    case AtNode(o, cur, reg, n) => ReachableIsNode(H, s.trie, Path(H, o.key, n));
    case _ =>
  }

  // -----------------------------------------------------------------------------
  // The length of a walk.

  /** The nodes that a walk for `k` has passed on its way to slot `n`. */
  ghost function Passed<K(!new)>(H: Hasher<K>, t: Trie<K>, k: K, n: nat): set<nat> {
    set m: nat | 1 <= m < n :: At(t, Path(H, k, m))
  }

  lemma {:induction false} PassedCount<K(!new)>(H: Hasher<K>, t: Trie<K>, k: K, n: nat)
    requires WellFormed(H, t) && n >= 1 && forall m: nat :: 1 <= m < n ==> At(t, Path(H, k, m)) != 0
    ensures Passed(H, t, k, n) <= ReachSet(t) && |Passed(H, t, k, n)| == n - 1
    decreases n
  {
    hide At, RegAt, WellFormed, Path, ReachSet;
    if n == 1 {
      assert Passed(H, t, k, n) == {};
    } else {
      var p := At(t, Path(H, k, n - 1));
      PassedCount(H, t, k, n - 1);
      assert Passed(H, t, k, n) == Passed(H, t, k, n - 1) + {p};
      if p in Passed(H, t, k, n - 1) {
        var m: nat :| 1 <= m < n - 1 && At(t, Path(H, k, m)) == p;
        OnePath(H, t, Path(H, k, m), Path(H, k, n - 1));
      }
      ReachableIsNode(H, t, Path(H, k, n - 1));
      InReachSet(t, Path(H, k, n - 1));
    }
  }

  lemma InReachSet<K(!new)>(t: Trie<K>, path: seq<nat>)
    requires At(t, path) != 0 && At(t, path) in t.heap
    ensures At(t, path) in ReachSet(t)
  {
    hide At;
  }

  /** A walk meets only different, reachable nodes, so it is at most one slot longer than there are nodes. */
  lemma WalkIsShort<K(!new)>(H: Hasher<K>, t: Trie<K>, k: K, n: nat)
    requires WellFormed(H, t) && OnWay(H, t, k, n)
    ensures n - 1 <= |ReachSet(t)|
    ensures At(t, Path(H, k, n)) != 0 ==> n <= |ReachSet(t)|
  {
    hide At, Path, WellFormed;
    PassedCount(H, t, k, n);
    SubsetSize(Passed(H, t, k, n), ReachSet(t));
    if At(t, Path(H, k, n)) != 0 {
      PassedCount(H, t, k, n + 1);
      SubsetSize(Passed(H, t, k, n + 1), ReachSet(t));
    }
  }

  lemma {:induction false} SubsetSize(a: set<nat>, b: set<nat>)
    requires a <= b
    ensures |a| <= |b|
    decreases a
  {
    if a != {} {
      var x :| x in a;
      SubsetSize(a - {x}, b - {x});
    }
  }

  // -----------------------------------------------------------------------------
  // The steps of one call.

  /** The most steps, its call included, that a thread can have taken to be here when `nodes` nodes are
      reachable: four for each slot of the walk. */
  function Rank<K>(pc: Pc<K>, nodes: nat): int {
    match pc
    case Idle => 0
    case AtSlot(_, _, _, n) => 4 * n - 3
    case Empty(_, _, _, n) => 4 * n - 2
    case Ready(_, _, _, n, _) => 4 * n - 1
    case AtNode(_, _, _, n) => 4 * n
    case Matched(_, _) => 4 * nodes + 1
    case Done(_, _) => 4 * nodes + 4
  }

  lemma RankBound<K(!new)>(H: Hasher<K>, s: State<K>, i: nat)
    requires Inv(H, s) && i < |s.pc|
    ensures Rank(s.pc[i], |ReachSet(s.trie)|) <= 4 * |ReachSet(s.trie)| + 4
    ensures s.pc[i].AtNode? ==> s.pc[i].n <= |ReachSet(s.trie)|
  {
    hide At, Path, WellFormed, OnWay, RegAt;
    assert ThreadOk(H, s, i);
    match s.pc[i]
    case AtSlot(op, _, _, n) => WalkIsShort(H, s.trie, op.key, n);
    case Empty(op, _, _, n) => WalkIsShort(H, s.trie, op.key, n);
    case Ready(op, _, _, n, _) => WalkIsShort(H, s.trie, op.key, n);
    case AtNode(op, _, _, n) => WalkIsShort(H, s.trie, op.key, n);
    case _ =>
  }

  /** Nodes stay reachable, and only a winning CAS adds one. */
  lemma StepNodes<K(!new)>(H: Hasher<K>, s: State<K>, i: nat, a: Action<K>)
    requires Inv(H, s) && Enabled(s, i, a) && Inv(H, Step(H, s, i, a))
    ensures |ReachSet(Step(H, s, i, a).trie)| == |ReachSet(s.trie)| + if Wins(s, i, a) then 1 else 0
  {
    hide At, Path, Step, Enabled, Reachable, Wins;
    var s' := Step(H, s, i, a);
    StepReach(H, s, i, a);
    ReachInHeap(H, s);
    ReachInHeap(H, s');
    if Wins(s, i, a) {
      WinnerIsNew(H, s, i, a);
      WinnerStays(H, s, i, a);
      assert ReachSet(s'.trie) == ReachSet(s.trie) + {s.pc[i].node};
    } else {
      assert ReachSet(s'.trie) == ReachSet(s.trie);
    }
  }

  lemma ReachInHeap<K(!new)>(H: Hasher<K>, s: State<K>)
    requires Inv(H, s)
    ensures forall p :: Reachable(s.trie, p) ==> p in s.trie.heap
  {
    hide At, Path;
    forall p | Reachable(s.trie, p) ensures p in s.trie.heap { SameKeySameNode(H, s.trie, p, p); }
  }

  lemma WinnerIsNew<K(!new)>(H: Hasher<K>, s: State<K>, i: nat, a: Action<K>)
    requires Inv(H, s) && Enabled(s, i, a) && Wins(s, i, a)
    ensures i < |s.pc| && s.pc[i].Ready? && s.pc[i].node in s.trie.heap && !Reachable(s.trie, s.pc[i].node)
  {
    hide At, Path, Reachable, WellFormed, Standing;
    assert ThreadOk(H, s, i);
  }

  lemma WinnerStays<K(!new)>(H: Hasher<K>, s: State<K>, i: nat, a: Action<K>)
    requires Enabled(s, i, a) && Wins(s, i, a) && s.pc[i].node in s.trie.heap
    ensures s.pc[i].node in Step(H, s, i, a).trie.heap
  {
  }

  /** An own step raises the rank by at least one. */
  lemma StepRank<K(!new)>(H: Hasher<K>, s: State<K>, i: nat, a: Action<K>, nodes: nat)
    requires Enabled(s, i, a) && !a.Invoke? && !a.Respond?
    requires Rank(s.pc[i], nodes) <= 4 * nodes + 4 && (s.pc[i].AtNode? ==> s.pc[i].n <= nodes)
    ensures i < |Step(H, s, i, a).pc| && Rank(s.pc[i], nodes) + 1 <= Rank(Step(H, s, i, a).pc[i], nodes)
  {
    hide Read, Write, StoreValue, Matches, Advance, Digit, HasSlot;
  }

  /** How often thread `i` moves in `moves[a..b]`. */
  function OwnSteps<K>(moves: seq<Move<K>>, i: nat, a: nat, b: nat): nat
    requires a <= b <= |moves|
    decreases b - a
  {
    if a == b then 0 else OwnSteps(moves, i, a, b - 1) + if moves[b - 1].thread == i then 1 else 0
  }

  /** Thread `i` is called by move `a` and has not returned when `b` moves have been made. */
  ghost predicate InCall<K>(moves: seq<Move<K>>, i: nat, a: nat, b: nat)
    requires a < b <= |moves|
  {
    && moves[a].thread == i && moves[a].action.Invoke?
    && forall j :: a < j < b && moves[j].thread == i ==> !moves[j].action.Respond? && !moves[j].action.Invoke?
  }

  lemma {:induction false} CallRank<K(!new)>(H: Hasher<K>, threads: nat, states: seq<State<K>>, moves: seq<Move<K>>,
                                      i: nat, a: nat, b: nat)
    requires Run(H, threads, states, moves) && a < b <= |moves| && InCall(moves, i, a, b)
    requires forall j :: 0 <= j < |states| ==> Inv(H, states[j])
    ensures i < |states[b].pc|
    ensures OwnSteps(moves, i, a, b) <= Rank(states[b].pc[i], |ReachSet(states[b].trie)|)
    decreases b
  {
    hide Inv, ReachSet, Step, Enabled, Wins;
    var (s, mv) := (states[b - 1], moves[b - 1]);
    if a == b - 1 {
      CallStarts(H, s, i, mv.action);
      assert OwnSteps(moves, i, a, a) == 0;
    } else {
      CallRank(H, threads, states, moves, i, a, b - 1);
      assert Inv(H, s) && Inv(H, states[b]);
      StepNodes(H, s, mv.thread, mv.action);
      if mv.thread == i {
        RankBound(H, s, i);
        StepRank(H, s, i, mv.action, |ReachSet(s.trie)|);
      } else {
        OthersKeepPc(H, s, mv.thread, mv.action);
      }
    }
  }

  lemma CallStarts<K(!new)>(H: Hasher<K>, s: State<K>, i: nat, a: Action<K>)
    requires Enabled(s, i, a) && a.Invoke?
    ensures var s' := Step(H, s, i, a); i < |s'.pc| && forall r: nat :: Rank(s'.pc[i], r) == 1
  {
  }

  /** The winning CASes among the first `b` moves. */
  ghost function WinCount<K(!new)>(H: Hasher<K>, threads: nat, states: seq<State<K>>, moves: seq<Move<K>>, b: nat): nat
    requires Run(H, threads, states, moves) && b <= |moves|
    decreases b
  {
    if b == 0 then 0
    else WinCount(H, threads, states, moves, b - 1) + if Wins(states[b - 1], moves[b - 1].thread, moves[b - 1].action) then 1 else 0
  }

  lemma {:induction false} NodesAreWins<K(!new)>(H: Hasher<K>, threads: nat, states: seq<State<K>>,
                                          moves: seq<Move<K>>, b: nat)
    requires Run(H, threads, states, moves) && b <= |moves|
    requires forall j :: 0 <= j < |states| ==> Inv(H, states[j])
    ensures |ReachSet(states[b].trie)| == WinCount(H, threads, states, moves, b)
    decreases b
  {
    hide Inv, Step, Enabled, Wins, At;
    if b == 0 {
      assert ReachSet(states[0].trie) == {};
    } else {
      NodesAreWins(H, threads, states, moves, b - 1);
      hide ReachSet;
      assert Inv(H, states[b - 1]) && Inv(H, states[b]);
      StepNodes(H, states[b - 1], moves[b - 1].thread, moves[b - 1].action);
    }
  }

  /** Progress, in every interleaving: a call has taken at most four steps for each node published so far,
      and four more. It can only be kept from returning by other threads' Puts that succeed. */
  lemma CallIsBounded<K(!new)>(H: Hasher<K>, threads: nat, states: seq<State<K>>, moves: seq<Move<K>>,
                        i: nat, a: nat, b: nat)
    requires Run(H, threads, states, moves) && a < b <= |moves| && InCall(moves, i, a, b)
    ensures OwnSteps(moves, i, a, b) <= 4 * |ReachSet(states[b].trie)| + 4
    ensures |ReachSet(states[b].trie)| == WinCount(H, threads, states, moves, b)
  {
    hide Inv, ReachSet, Step, Enabled, Wins, Represents, AtomicMap.Step;
    var specs := Linearizable(H, threads, states, moves);
    CallRank(H, threads, states, moves, i, a, b);
    RankBound(H, states[b], i);
    NodesAreWins(H, threads, states, moves, b);
  }

  // -----------------------------------------------------------------------------
  // Why a CAS fails.

  /** The move is a CAS that puts `node` into the empty slot. */
  ghost predicate Fills<K(!new)>(s: State<K>, mv: Move<K>, slot: Slot, node: nat) {
    && Enabled(s, mv.thread, mv.action) && Wins(s, mv.thread, mv.action)
    && s.pc[mv.thread].slot == slot && s.pc[mv.thread].node == node
  }

  lemma FillsOnly<K(!new)>(H: Hasher<K>, s: State<K>, mv: Move<K>, slot: Slot)
    requires Enabled(s, mv.thread, mv.action) && HasSlot(s.trie, slot)
    ensures var t' := Step(H, s, mv.thread, mv.action).trie;
      HasSlot(t', slot) && (Read(t', slot) != Read(s.trie, slot) ==> Read(s.trie, slot) == 0 && Fills(s, mv, slot, Read(t', slot)))
  {
    StepTrie(H, s, mv.thread, mv.action);
    hide Step;
  }

  /** A slot that was empty and is not any more has been filled in between, with what it holds now. */
  lemma {:induction false} SlotFilled<K(!new)>(H: Hasher<K>, threads: nat, states: seq<State<K>>, moves: seq<Move<K>>,
                                        slot: Slot, a: nat, b: nat) returns (q: nat)
    requires Run(H, threads, states, moves) && a <= b <= |moves|
    requires HasSlot(states[a].trie, slot) && Read(states[a].trie, slot) == 0
    ensures HasSlot(states[b].trie, slot)
    ensures var node := Read(states[b].trie, slot); node != 0 ==> a <= q < b && Fills(states[q], moves[q], slot, node)
    decreases b
  {
    hide Step, Enabled, HasSlot, Read, Fills;
    q := 0;
    if a < b {
      q := SlotFilled(H, threads, states, moves, slot, a, b - 1);
      FillsOnly(H, states[b - 1], moves[b - 1], slot);
      if Read(states[b].trie, slot) != Read(states[b - 1].trie, slot) { q := b - 1; }
    }
  }

  /** A thread that waits at a slot has loaded it and seen it empty, and has not moved elsewhere since. */
  lemma {:induction false} SawEmpty<K(!new)>(H: Hasher<K>, threads: nat, states: seq<State<K>>, moves: seq<Move<K>>,
                                      i: nat, slot: Slot, b: nat) returns (a: nat)
    requires Run(H, threads, states, moves) && b <= |moves| && Waiting(states[b], i, slot)
    ensures a < b && moves[a].thread == i && moves[a].action.Load?
    ensures HasSlot(states[a].trie, slot) && Read(states[a].trie, slot) == 0
    ensures forall c :: a < c <= b ==> Waiting(states[c], i, slot)
    decreases b
  {
    hide Step, Enabled, HasSlot, Read;
    if b == 0 { assert false; }
    var (s, mv) := (states[b - 1], moves[b - 1]);
    OthersKeepPc(H, s, mv.thread, mv.action);
    if mv.thread == i { LoadedEmpty(H, s, i, mv.action); }
    if mv.thread == i && states[b].pc[i].Empty? {
      a := b - 1;
    } else {
      a := SawEmpty(H, threads, states, moves, i, slot, b - 1);
    }
  }

  lemma LoadedEmpty<K(!new)>(H: Hasher<K>, s: State<K>, i: nat, a: Action<K>)
    requires Enabled(s, i, a)
    ensures var s' := Step(H, s, i, a);
      && i < |s'.pc|
      && (s'.pc[i].Empty? ==> a.Load? && HasSlot(s.trie, s'.pc[i].slot) && Read(s.trie, s'.pc[i].slot) == 0)
      && (s'.pc[i].Ready? ==> s.pc[i].Empty? && s'.pc[i].slot == s.pc[i].slot)
  {
    SelfWaits(H, s, i, a);
  }

  /** A CAS that fails has lost to another thread's CAS on the same slot, won after this thread saw the
      slot empty and before it tried; the node it finds is the one published by that win. */
  lemma LoserHasWinner<K(!new)>(H: Hasher<K>, threads: nat, states: seq<State<K>>, moves: seq<Move<K>>, j: nat)
    returns (a: nat, q: nat)
    requires Run(H, threads, states, moves) && j < |moves|
    requires var s := states[j]; var i := moves[j].thread;
      s.pc[i].Ready? && Read(s.trie, s.pc[i].slot) != 0
    ensures var i := moves[j].thread; var slot := states[j].pc[i].slot;
      && a < q < j && moves[a].thread == i && moves[a].action.Load?
      && HasSlot(states[a].trie, slot) && Read(states[a].trie, slot) == 0
      && moves[q].thread != i && Fills(states[q], moves[q], slot, Read(states[j].trie, slot))
  {
    hide Step, Enabled, HasSlot, Read, Fills;
    var i := moves[j].thread;
    ThreadExists(states[j], i, moves[j].action);
    var slot := states[j].pc[i].slot;
    a := SawEmpty(H, threads, states, moves, i, slot, j);
    q := SlotFilled(H, threads, states, moves, slot, a, j);
    FillerDone(H, states[q], moves[q], slot, Read(states[j].trie, slot));
    assert Waiting(states[q + 1], i, slot);
  }

  lemma ThreadExists<K(!new)>(s: State<K>, i: nat, a: Action<K>)
    requires Enabled(s, i, a)
    ensures i < |s.pc| && (s.pc[i].Ready? ==> HasSlot(s.trie, s.pc[i].slot))
  {
  }

  lemma FillerDone<K(!new)>(H: Hasher<K>, s: State<K>, mv: Move<K>, slot: Slot, node: nat)
    requires Fills(s, mv, slot, node)
    ensures Enabled(s, mv.thread, mv.action) && s.pc[mv.thread].Ready? && Step(H, s, mv.thread, mv.action).pc[mv.thread].Done?
  {
  }
}
