/**
 What a Put answers, and when. Running out of memory is the answer only of a call that tried to allocate a
 node and failed, after it had seen that its key was not in the map; every other Put stores its value.
 */
module HashTrieOutcomes {
  import opened Machine
  import opened Descent
  import opened TrieShape
  import opened HashTrie
  import opened HashTrieSafety
  import opened HashTrieProgress
  import AtomicMap

  /** The step in which thread `i`'s call is decided. */
  ghost predicate Decides<K>(s: State<K>, s': State<K>, i: nat) {
    i < |s.pc| && i < |s'.pc| && !s.pc[i].Idle? && !s.pc[i].Done? && s'.pc[i].Done?
  }

  /** A call is answered NoMemory exactly by a failed allocation. */
  lemma RefusesOnlyAllocation<K(!new)>(H: Hasher<K>, s: State<K>, i: nat, a: Action<K>)
    requires Enabled(s, i, a)
    ensures var s' := Step(H, s, i, a);
      |s'.pc| == |s.pc| && (Decides(s, s', i) ==> s'.pc[i].op == s.pc[i].op && (s'.pc[i].res == AtomicMap.NoMemory <==> a.OutOfMemory?))
    ensures a.OutOfMemory? ==> s.pc[i].Empty? && Decides(s, Step(H, s, i, a), i) && Step(H, s, i, a).trie == s.trie
  {
    hide Read, Write, StoreValue, Matches, Advance, Digit, HasSlot;
  }

  /** A Put that meets its key's node goes on to store through it. */
  lemma MatchGoesOn<K(!new)>(H: Hasher<K>, s: State<K>, i: nat)
    requires Enabled(s, i, Compare) && s.pc[i].AtNode? && s.pc[i].op.Put? && s.pc[i].cur in s.trie.heap
    requires Matches(H, s.trie.heap[s.pc[i].cur], s.pc[i].op.key)
    ensures Step(H, s, i, Compare) == s.(pc := s.pc[i := Matched(s.pc[i].op, s.pc[i].cur)])
  {
  }

  /** The store: the Put answers Ok and the map has its value. */
  lemma StoreAnswersOk<K(!new)>(H: Hasher<K>, s: State<K>, i: nat, m: map<K, u64>)
    requires Sim(H, s, m) && Enabled(s, i, Access) && s.pc[i].Matched? && s.pc[i].op.Put?
    ensures var s' := Step(H, s, i, Access); var op := s.pc[i].op;
      s'.pc == s.pc[i := Done(op, AtomicMap.Ok)] && op.key in m && Represents(s'.trie, m[op.key := op.value])
  {
    hide At, Path, WellFormed, Represents;
    assert ThreadOk(H, s, i);
    HolderInMap(H, s.trie, s.pc[i].op.key, s.pc[i].cur, m);
    StoreCorrect(H, s.trie, s.pc[i].cur, s.pc[i].op.value, m);
  }

  lemma HolderInMap<K(!new)>(H: Hasher<K>, t: Trie<K>, k: K, p: nat, m: map<K, u64>)
    requires Holds(t, k, p) && Represents(t, m)
    ensures Reachable(t, p) && KeyOf(t, p) == k && k in m
  {
    hide Represents;
    HeldValue(t, k, p, m);
  }

  // -----------------------------------------------------------------------------
  // Whole calls.

  /** Between its call and its decision a thread works on the operation it was called with. */
  lemma {:induction false} CallKeepsOp<K(!new)>(H: Hasher<K>, threads: nat, states: seq<State<K>>, moves: seq<Move<K>>,
                                         i: nat, a: nat, c: nat)
    requires Run(H, threads, states, moves) && a < c <= |moves| && InCall(moves, i, a, c)
    ensures i < |states[c].pc| && !states[c].pc[i].Idle? && states[c].pc[i].op == moves[a].action.op
    decreases c
  {
    hide Step, Enabled;
    var (s, mv) := (states[c - 1], moves[c - 1]);
    if a == c - 1 {
      CallOp(H, s, i, mv.action);
    } else {
      CallKeepsOp(H, threads, states, moves, i, a, c - 1);
      if mv.thread == i { StepKeepsOp(H, s, i, mv.action); } else { OthersKeepPc(H, s, mv.thread, mv.action); }
    }
  }

  lemma CallOp<K(!new)>(H: Hasher<K>, s: State<K>, i: nat, a: Action<K>)
    requires Enabled(s, i, a) && a.Invoke?
    ensures var s' := Step(H, s, i, a); i < |s'.pc| && s'.pc[i].AtSlot? && s'.pc[i].op == a.op
  {
  }

  lemma StepKeepsOp<K(!new)>(H: Hasher<K>, s: State<K>, i: nat, a: Action<K>)
    requires Enabled(s, i, a) && !a.Invoke? && !a.Respond?
    ensures var s' := Step(H, s, i, a); i < |s'.pc| && !s'.pc[i].Idle? && s'.pc[i].op == s.pc[i].op
  {
    hide Read, Write, StoreValue, Matches, Advance, Digit, HasSlot;
  }

  lemma LoadKeepsSlot<K(!new)>(H: Hasher<K>, s: State<K>, i: nat, slot: Slot)
    requires Enabled(s, i, Load) && Waiting(Step(H, s, i, Load), i, slot)
    ensures s.pc[i].AtSlot? && s.pc[i].slot == slot
  {
    hide Read, HasSlot;
  }

  /** A thread that finds the slot at the end of its walk empty has seen that its key is not in the map. */
  lemma EmptyMeansAbsent<K(!new)>(H: Hasher<K>, s: State<K>, i: nat, slot: Slot)
    requires Inv(H, s) && i < |s.pc| && s.pc[i].AtSlot? && s.pc[i].slot == slot
    requires HasSlot(s.trie, slot) && Read(s.trie, slot) == 0
    ensures !HasKey(s.trie, s.pc[i].op.key)
  {
    hide At, Path, WellFormed, OnWay;
    var (k, n) := (s.pc[i].op.key, s.pc[i].n);
    assert ThreadOk(H, s, i);
    SlotOnPath(H, s.trie, k, n);
    forall p ensures !Holds(s.trie, k, p) { MissMeansAbsent(H, s.trie, k, n, p); }
  }

  /** A call that fails to allocate has loaded an empty slot since it began, when its key was absent. */
  lemma RefusedSawAbsent<K(!new)>(H: Hasher<K>, threads: nat, states: seq<State<K>>, moves: seq<Move<K>>, i: nat, a: nat, j: nat)
    returns (c: nat)
    requires Run(H, threads, states, moves) && a < j < |moves| && InCall(moves, i, a, j)
    requires moves[j].thread == i && moves[j].action.OutOfMemory?
    ensures a < c < j && moves[c].thread == i && moves[c].action.Load?
    ensures !HasKey(states[c].trie, moves[a].action.op.key)
  {
    hide Step, Enabled, HasSlot, Read, Represents, Inv, HasKey, AtomicMap.Step;
    CallKeepsOp(H, threads, states, moves, i, a, j);
    RefusesOnlyAllocation(H, states[j], i, moves[j].action);
    var slot := states[j].pc[i].slot;
    c := SawEmpty(H, threads, states, moves, i, slot, j);
    CallOp(H, states[a], i, moves[a].action);
    assert !Waiting(states[a + 1], i, slot);
    CallKeepsOp(H, threads, states, moves, i, a, c);
    assert Waiting(states[c + 1], i, slot);
    LoadKeepsSlot(H, states[c], i, slot);
    var specs := Linearizable(H, threads, states, moves);
    EmptyMeansAbsent(H, states[c], i, slot);
  }

  lemma KeyStays<K(!new)>(t: Trie<K>, t': Trie<K>, k: K)
    requires Extends(t, t') && HasKey(t, k)
    ensures HasKey(t', k)
  {
    hide At;
    var p :| Holds(t, k, p);
    HoldsStable(t, t', k, p);
  }

  /** Every Put in every interleaving: it stores its value and answers Ok, or it answers NoMemory in the step
      of a failed allocation, having changed nothing and having seen its key absent since it was called. So a
      Put of a key that was in the map when it was called answers Ok. */
  lemma PutOutcome<K(!new)>(H: Hasher<K>, threads: nat, states: seq<State<K>>, moves: seq<Move<K>>, i: nat, a: nat, j: nat)
    requires Run(H, threads, states, moves) && a < j < |moves| && InCall(moves, i, a, j)
    requires moves[a].action.op.Put? && moves[j].thread == i && Decides(states[j], states[j + 1], i)
    ensures states[j + 1].pc[i].op == moves[a].action.op
    ensures var (op, res, t) := (moves[a].action.op, states[j + 1].pc[i].res, states[j + 1].trie);
      if moves[j].action.OutOfMemory? then
        && res == AtomicMap.NoMemory && t == states[j].trie && !HasKey(states[a].trie, op.key)
        && exists c :: a < c < j && !HasKey(states[c].trie, op.key)
      else
        res == AtomicMap.Ok && HasEntry(t, op.key, op.value)
  {
    hide Step, Enabled, HasKey, HasEntry, Represents, Inv, At, Path, AtomicMap.Step;
    CallKeepsOp(H, threads, states, moves, i, a, j);
    RefusesOnlyAllocation(H, states[j], i, moves[j].action);
    if moves[j].action.OutOfMemory? {
      var c := RefusedSawAbsent(H, threads, states, moves, i, a, j);
      if HasKey(states[a].trie, moves[a].action.op.key) {
        PublishedForever(H, threads, states, moves, a, c);
        KeyStays(states[a].trie, states[c].trie, moves[a].action.op.key);
      }
    } else {
      var specs := Linearizable(H, threads, states, moves);
      DecidedPut(specs[j], specs[j + 1], i, EventOf(states[j], i, moves[j].action));
      MapHolds(states[j + 1].trie, specs[j + 1].m, moves[a].action.op.key);
    }
  }

  lemma DecidedPut<K>(s: AtomicMap.Spec<K>, s': AtomicMap.Spec<K>, i: nat, e: AtomicMap.Event<K>)
    requires AtomicMap.Step(s, s', i, e) && i < |s.phase| && i < |s'.phase|
    requires s.phase[i].Pending? && s.phase[i].op.Put? && s'.phase[i].Decided? && s'.phase[i].res != AtomicMap.NoMemory
    ensures s'.phase[i].res == AtomicMap.Ok && s'.m == s.m[s.phase[i].op.key := s.phase[i].op.value]
  {
  }

  lemma MapHolds<K(!new)>(t: Trie<K>, m: map<K, u64>, k: K)
    requires Represents(t, m) && k in m
    ensures HasEntry(t, k, m[k])
  {
    var p :| Holds(t, k, p);
    HeldValue(t, k, p, m);
  }
}
