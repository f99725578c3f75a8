/**
 HashIndex: the lock-free protocol with a 128-bit digest pair in place of the key bytes.

 A node holds two digests instead of one digest and a key, a match compares both, and the register is
 reloaded by remixing the pair. The machine below takes the steps of PutH and GetH with their own locals;
 `IndexIsTrie` shows that each of its steps is the step of the trie protocol whose keys are pairs, so the
 protocol's theorems hold of the index.
 */
module HashIndex {
  import opened Machine
  import opened Words
  import opened Descent
  import opened TrieShape
  import opened HashFunc
  import AtomicMap
  import HashTrie
  import HashTrieOutcomes
  import HashTrieProgress

  type Pair = (u64, u64)

  datatype IndexNode = IndexNode(child: seq<nat>, h1: u64, h2: u64, value: u64)

  datatype Call = PutH(h1: u64, h2: u64, value: u64) | GetH(h1: u64, h2: u64, want: bool)

  datatype Status = OK | NO_MEMORY | NOT_FOUND

  /** Where a thread stands in PutH or GetH, with the locals `h` and `round`. */
  datatype Pc =
    | Idle
    | Loading(call: Call, slot: Slot, h: u64, round: u32)
    | Creating(call: Call, slot: Slot, h: u64, round: u32)
    | Offering(call: Call, slot: Slot, h: u64, round: u32, node: nat)
    | Comparing(call: Call, cur: nat, h: u64, round: u32)
    | Touching(call: Call, cur: nat)
    | Returned(call: Call, status: Status, out: Option<u64>)

  datatype State = State(top: seq<nat>, heap: map<nat, IndexNode>, pc: seq<Pc>)

  datatype Action = Invoke(call: Call) | Load | Alloc(node: nat) | OutOfMemory | Cas | Compare | Access | Respond

  /** `rgm_hash_index_node_create`. */
  function NewNode(h1: u64, h2: u64, value: u64): IndexNode {
    IndexNode([0, 0, 0, 0], h1, h2, value)
  }

  predicate NodeMatches(n: IndexNode, h1: u64, h2: u64) {
    n.h1 == h1 && n.h2 == h2
  }

  predicate SlotThere(s: State, slot: Slot) {
    match slot
    case Top(i) => i < |s.top|
    case Child(p, c) => p in s.heap && c < |s.heap[p].child|
  }

  function ReadSlot(s: State, slot: Slot): nat
    requires SlotThere(s, slot)
  {
    match slot
    case Top(i) => s.top[i]
    case Child(p, c) => s.heap[p].child[c]
  }

  function FillSlot(s: State, slot: Slot, node: nat): State
    requires SlotThere(s, slot)
  {
    match slot
    case Top(i) => s.(top := s.top[i := node])
    case Child(p, c) => s.(heap := s.heap[p := s.heap[p].(child := s.heap[p].child[c := node])])
  }

  predicate Enabled(s: State, i: nat, a: Action) {
    && i < |s.pc|
    && match s.pc[i]
       case Idle => a.Invoke?
       case Loading(_, slot, _, _) => a.Load? && SlotThere(s, slot)
       case Creating(call, _, _, _) => call.PutH? && (a.OutOfMemory? || (a.Alloc? && a.node != 0 && a.node !in s.heap))
       case Offering(_, slot, _, _, _) => a.Cas? && SlotThere(s, slot)
       case Comparing(_, cur, _, _) => a.Compare? && cur in s.heap
       case Touching(_, cur) => a.Access? && cur in s.heap
       case Returned(_, _, _) => a.Respond?
  }

  /** The next program point and, for the steps that write, the new memory. */
  function Step(s: State, i: nat, a: Action): State
    requires Enabled(s, i, a)
  {
    match s.pc[i]
    case Idle => s.(pc := s.pc[i := Loading(a.call, Top(a.call.h1 / 0x10_0000_0000_0000), a.call.h1 * 4096 % TWO_64, 0)])
    case Loading(call, slot, h, round) =>
      var cur := ReadSlot(s, slot);
      s.(pc := s.pc[i :=
        if cur != 0 then Comparing(call, cur, h, round)
        else if call.PutH? then Creating(call, slot, h, round)
        else Returned(call, NOT_FOUND, None)])
    case Creating(call, slot, h, round) =>
      if a.OutOfMemory? then s.(pc := s.pc[i := Returned(call, NO_MEMORY, None)])
      else
        s.(heap := s.heap[a.node := NewNode(call.h1, call.h2, call.value)],
           pc := s.pc[i := Offering(call, slot, h, round, a.node)])
    case Offering(call, slot, h, round, node) =>
      var prior := ReadSlot(s, slot);
      if prior == 0 then FillSlot(s, slot, node).(pc := s.pc[i := Returned(call, OK, None)])
      else s.(pc := s.pc[i := Comparing(call, prior, h, round)])
    case Comparing(call, cur, h, round) =>
      s.(pc := s.pc[i :=
        if NodeMatches(s.heap[cur], call.h1, call.h2) then
          if call.GetH? && !call.want then Returned(call, OK, None) else Touching(call, cur)
        else
          var slot := Child(cur, h / 0x4000_0000_0000_0000);
          var shifted := h * 4 % TWO_64;
          if shifted != 0 then Loading(call, slot, shifted, round)
          else
            var next := (round + 1) % TWO_32;
            Loading(call, slot, ReseedPair((call.h1, call.h2), next), next)])
    case Touching(call, cur) =>
      if call.PutH? then
        s.(heap := s.heap[cur := s.heap[cur].(value := call.value)], pc := s.pc[i := Returned(call, OK, None)])
      else
        s.(pc := s.pc[i := Returned(call, OK, Some(s.heap[cur].value))])
    case Returned(_, _, _) => s.(pc := s.pc[i := Idle])
  }

  // -----------------------------------------------------------------------------
  // The index as a trie over pairs.

  function AsNode(n: IndexNode): Node<Pair> {
    Node(n.child, n.h1, (n.h1, n.h2), n.value)
  }

  function AsHeap(heap: map<nat, IndexNode>): (h: map<nat, Node<Pair>>)
    ensures h.Keys == heap.Keys && forall p :: p in heap ==> h[p] == AsNode(heap[p])
  {
    map p | p in heap :: AsNode(heap[p])
  }

  function AsTrie(s: State): Trie<Pair> {
    Trie(s.top, AsHeap(s.heap))
  }

  function AsOp(call: Call): AtomicMap.Op<Pair> {
    match call
    case PutH(h1, h2, value) => AtomicMap.Put((h1, h2), value)
    case GetH(h1, h2, want) => AtomicMap.Get((h1, h2), want)
  }

  /** A Get's OK stands for a hit, with the value if it was asked for. */
  function AsResult(call: Call, status: Status, out: Option<u64>): AtomicMap.Result {
    match status
    case OK => if call.PutH? then AtomicMap.Ok else AtomicMap.Found(out)
    case NO_MEMORY => AtomicMap.NoMemory
    case NOT_FOUND => AtomicMap.NotFound
  }

  function AsAction(a: Action): HashTrie.Action<Pair> {
    match a
    case Invoke(call) => HashTrie.Invoke(AsOp(call))
    case Load => HashTrie.Load
    case Alloc(node) => HashTrie.Alloc(node)
    case OutOfMemory => HashTrie.OutOfMemory
    case Cas => HashTrie.Cas
    case Compare => HashTrie.Compare
    case Access => HashTrie.Access
    case Respond => HashTrie.Respond
  }

  /** The same program point, up to the protocol's auxiliary counter. */
  predicate SamePoint(p: Pc, q: HashTrie.Pc<Pair>) {
    match p
    case Idle => q.Idle?
    case Loading(call, slot, h, round) => q.AtSlot? && q.op == AsOp(call) && q.slot == slot && q.reg == Reg(h, round)
    case Creating(call, slot, h, round) => q.Empty? && q.op == AsOp(call) && q.slot == slot && q.reg == Reg(h, round)
    case Offering(call, slot, h, round, node) =>
      q.Ready? && call.PutH? && q.op == AsOp(call) && q.slot == slot && q.reg == Reg(h, round) && q.node == node
    case Comparing(call, cur, h, round) => q.AtNode? && q.op == AsOp(call) && q.cur == cur && q.reg == Reg(h, round)
    case Touching(call, cur) => q.Matched? && q.op == AsOp(call) && q.cur == cur
    case Returned(call, status, out) => q.Done? && q.op == AsOp(call) && q.res == AsResult(call, status, out)
  }

  ghost predicate Mirrors(s: State, t: HashTrie.State<Pair>) {
    t.trie == AsTrie(s) && |t.pc| == |s.pc| && forall i :: 0 <= i < |s.pc| ==> SamePoint(s.pc[i], t.pc[i])
  }

  /** Slots and nodes are read alike. */
  lemma SlotsMirror(s: State, slot: Slot)
    ensures SlotThere(s, slot) <==> HasSlot(AsTrie(s), slot)
    ensures SlotThere(s, slot) ==> ReadSlot(s, slot) == Read(AsTrie(s), slot)
  {
  }

  lemma FillMirrors(s: State, slot: Slot, node: nat)
    requires SlotThere(s, slot)
    ensures HasSlot(AsTrie(s), slot) && AsTrie(FillSlot(s, slot, node)) == Write(AsTrie(s), slot, node)
  {
    if slot.Child? {
      assert AsHeap(FillSlot(s, slot, node).heap) == Write(AsTrie(s), slot, node).heap;
    }
  }

  lemma StoreMirrors(heap: map<nat, IndexNode>, cur: nat, n: IndexNode)
    ensures AsHeap(heap[cur := n]) == AsHeap(heap)[cur := AsNode(n)]
  {
  }

  /** What PutH and GetH compute from a pair is what the protocol computes from it as a key. */
  lemma PairRules(n: IndexNode, h1: u64, h2: u64, h: u64, round: u32)
    ensures NodeMatches(n, h1, h2) <==> HashTrie.Matches(PAIR_KEYS, AsNode(n), (h1, h2))
    ensures PAIR_KEYS.digest((h1, h2)) == h1
    ensures TopIndex(PAIR_KEYS, (h1, h2)) == h1 / 0x10_0000_0000_0000
    ensures Start(PAIR_KEYS, (h1, h2)) == Reg(h1 * 4096 % TWO_64, 0)
    ensures Digit(Reg(h, round)) == h / 0x4000_0000_0000_0000
    ensures Advance(PAIR_KEYS, (h1, h2), Reg(h, round)) ==
      var (shifted, next) := (h * 4 % TWO_64, (round + 1) % TWO_32);
      if shifted != 0 then Reg(shifted, round) else Reg(ReseedPair((h1, h2), next), next)
  {
    hide Mix, XorBits;
  }

  lemma OfferMirrors(s: State, t: HashTrie.State<Pair>, i: nat)
    requires Mirrors(s, t) && Enabled(s, i, Cas) && s.pc[i].Offering?
    ensures HashTrie.Enabled(t, i, HashTrie.Cas) && Mirrors(Step(s, i, Cas), HashTrie.Step(PAIR_KEYS, t, i, HashTrie.Cas))
  {
    hide AsTrie, SlotThere, HasSlot, ReadSlot, Read, FillSlot, Write, PAIR_KEYS;
    var (slot, node) := (s.pc[i].slot, s.pc[i].node);
    assert SamePoint(s.pc[i], t.pc[i]);
    SlotsMirror(s, slot);
    FillMirrors(s, slot, node);
    TrieOfMemory(FillSlot(s, slot, node), Step(s, i, Cas));
    TrieOfMemory(s, Step(s, i, Cas));
  }

  lemma CreateMirrors(s: State, t: HashTrie.State<Pair>, i: nat, a: Action)
    requires Mirrors(s, t) && Enabled(s, i, a) && s.pc[i].Creating?
    ensures HashTrie.Enabled(t, i, AsAction(a)) && Mirrors(Step(s, i, a), HashTrie.Step(PAIR_KEYS, t, i, AsAction(a)))
  {
    hide AsHeap, PAIR_KEYS;
    var call := s.pc[i].call;
    assert SamePoint(s.pc[i], t.pc[i]);
    PairRules(NewNode(0, 0, 0), call.h1, call.h2, 0, 0);
    if a.Alloc? { StoreMirrors(s.heap, a.node, NewNode(call.h1, call.h2, call.value)); }
  }

  lemma CompareMirrors(s: State, t: HashTrie.State<Pair>, i: nat)
    requires Mirrors(s, t) && Enabled(s, i, Compare) && s.pc[i].Comparing?
    ensures HashTrie.Enabled(t, i, HashTrie.Compare)
    ensures Mirrors(Step(s, i, Compare), HashTrie.Step(PAIR_KEYS, t, i, HashTrie.Compare))
  {
    hide AsHeap, NodeMatches, HashTrie.Matches, ReseedPair, Advance, Digit, PAIR_KEYS;
    var pc := s.pc[i];
    assert SamePoint(pc, t.pc[i]);
    PairRules(s.heap[pc.cur], pc.call.h1, pc.call.h2, pc.h, pc.round);
  }

  lemma TouchMirrors(s: State, t: HashTrie.State<Pair>, i: nat)
    requires Mirrors(s, t) && Enabled(s, i, Access) && s.pc[i].Touching?
    ensures HashTrie.Enabled(t, i, HashTrie.Access)
    ensures Mirrors(Step(s, i, Access), HashTrie.Step(PAIR_KEYS, t, i, HashTrie.Access))
  {
    hide AsHeap, PAIR_KEYS;
    var pc := s.pc[i];
    assert SamePoint(pc, t.pc[i]);
    if pc.call.PutH? { StoreMirrors(s.heap, pc.cur, s.heap[pc.cur].(value := pc.call.value)); }
  }

  lemma TrieOfMemory(s: State, s': State)
    ensures s.top == s'.top && s.heap == s'.heap ==> AsTrie(s) == AsTrie(s')
  {
  }

  /** Every step of the index is a step of the trie protocol with the pair as key. */
  lemma IndexIsTrie(s: State, t: HashTrie.State<Pair>, i: nat, a: Action)
    requires Mirrors(s, t) && Enabled(s, i, a)
    ensures HashTrie.Enabled(t, i, AsAction(a)) && Mirrors(Step(s, i, a), HashTrie.Step(PAIR_KEYS, t, i, AsAction(a)))
  {
    hide AsTrie, SlotThere, HasSlot, ReadSlot, Read, Start, TopIndex, PAIR_KEYS;
    assert SamePoint(s.pc[i], t.pc[i]);
    TrieOfMemory(s, Step(s, i, a));
    match s.pc[i]
    case Idle => PairRules(NewNode(0, 0, 0), a.call.h1, a.call.h2, 0, 0);
    case Loading(_, slot, _, _) => SlotsMirror(s, slot);
    case Creating(_, _, _, _) => CreateMirrors(s, t, i, a);
    case Offering(_, _, _, _, _) => OfferMirrors(s, t, i);
    case Comparing(_, _, _, _) => CompareMirrors(s, t, i);
    case Touching(_, _) => TouchMirrors(s, t, i);
    case Returned(_, _, _) =>
  }

  /** And the other way round: the index can take every step that the protocol can. */
  lemma IndexCanStep(s: State, t: HashTrie.State<Pair>, i: nat, a: Action)
    requires Mirrors(s, t)
    ensures Enabled(s, i, a) <==> HashTrie.Enabled(t, i, AsAction(a))
  {
    hide AsTrie, SlotThere, HasSlot;
    if i < |s.pc| {
      assert SamePoint(s.pc[i], t.pc[i]);
      if s.pc[i].Loading? || s.pc[i].Offering? { SlotsMirror(s, s.pc[i].slot); }
      HeapsMirror(s);
    }
  }

  lemma HeapsMirror(s: State)
    ensures AsTrie(s).heap.Keys == s.heap.Keys
  {
  }

  // -----------------------------------------------------------------------------
  // Runs.

  datatype Move = Move(thread: nat, action: Action)

  ghost predicate Run(threads: nat, states: seq<State>, moves: seq<Move>) {
    && |states| == |moves| + 1
    && states[0] == State(seq(TOP_SIZE, _ => 0), map[], seq(threads, _ => Idle))
    && forall j :: 0 <= j < |moves| ==>
         Enabled(states[j], moves[j].thread, moves[j].action)
         && states[j + 1] == Step(states[j], moves[j].thread, moves[j].action)
  }

  function AsMoves(moves: seq<Move>): (r: seq<HashTrie.Move<Pair>>)
    ensures |r| == |moves|
    ensures forall j :: 0 <= j < |moves| ==> r[j] == HashTrie.Move(moves[j].thread, AsAction(moves[j].action))
  {
    seq(|moves|, j requires 0 <= j < |moves| => HashTrie.Move(moves[j].thread, AsAction(moves[j].action)))
  }

  ghost predicate AllMirror(states: seq<State>, tries: seq<HashTrie.State<Pair>>) {
    |tries| == |states| && forall j :: 0 <= j < |states| ==> Mirrors(states[j], tries[j])
  }

  /** Every run of the index is a run of the trie protocol. */
  lemma {:induction false} RunIsTrieRun(threads: nat, states: seq<State>, moves: seq<Move>)
    returns (tries: seq<HashTrie.State<Pair>>)
    requires Run(threads, states, moves)
    ensures HashTrie.Run(PAIR_KEYS, threads, tries, AsMoves(moves)) && AllMirror(states, tries)
    decreases |moves|
  {
    hide Step, Enabled, HashTrie.Step, HashTrie.Enabled, PAIR_KEYS, SamePoint, AsAction;
    if |moves| == 0 {
      tries := [HashTrie.State(AsTrie(states[0]), seq(threads, _ => HashTrie.Idle), map[], map[])];
      StartMirrors(threads, states[0], tries[0]);
    } else {
      var n := |moves| - 1;
      var front := RunIsTrieRun(threads, states[..n + 1], moves[..n]);
      assert Mirrors(states[n], front[n]);
      IndexIsTrie(states[n], front[n], moves[n].thread, moves[n].action);
      tries := front + [HashTrie.Step(PAIR_KEYS, front[n], moves[n].thread, AsAction(moves[n].action))];
      var r := AsMoves(moves);
      forall j | 0 <= j < |r| ensures HashTrie.Enabled(tries[j], r[j].thread, r[j].action)
                                      && tries[j + 1] == HashTrie.Step(PAIR_KEYS, tries[j], r[j].thread, r[j].action) {
        if j < n { assert r[j] == AsMoves(moves[..n])[j]; }
      }
    }
  }

  lemma StartMirrors(threads: nat, s: State, t: HashTrie.State<Pair>)
    requires s == State(seq(TOP_SIZE, _ => 0), map[], seq(threads, _ => Idle))
    requires t == HashTrie.State(AsTrie(s), seq(threads, _ => HashTrie.Idle), map[], map[])
    ensures Mirrors(s, t) && HashTrie.Init(t, threads)
  {
    assert AsTrie(s).heap == map[];
  }

  // -----------------------------------------------------------------------------
  // What callers see.

  /** Thread `i`'s PutH of the pair `k` has just taken effect. */
  predicate PutTakes(s: State, s': State, i: nat, k: Pair) {
    && i < |s.pc| && i < |s'.pc| && !s.pc[i].Idle? && !s.pc[i].Returned? && s.pc[i].call.PutH?
    && AsOp(s.pc[i].call).key == k && s'.pc[i].Returned? && s'.pc[i].call == s.pc[i].call && s'.pc[i].status == OK
  }

  predicate GetTakes(s: State, s': State, i: nat) {
    && i < |s.pc| && i < |s'.pc| && !s.pc[i].Idle? && !s.pc[i].Returned? && s.pc[i].call.GetH?
    && s'.pc[i].Returned?
  }

  /** The pair that stands for a byte key. */
  function PairOf(p: Key): Pair {
    (Wyhash(p, WYP0), Wyhash(p, WYP2))
  }

  /** The hashing done by `rgHashIndexPut` and `rgHashIndexGet`: one pass over the key. */
  method HashKey(p: Key) returns (h1: u64, h2: u64)
    ensures (h1, h2) == PairOf(p)
    ensures h1 == Wyhash(p, 0x2d358dccaa6c78a5) && h2 == Wyhash(p, 0x4b33a62ed433d4a3)
  {
    h1, h2 := WyhashDualSeeded(p, WYP0, WYP2);
  }

  ghost predicate Answered(states: seq<State>, moves: seq<Move>, j: nat, q: Option<nat>)
    requires |states| == |moves| + 1 && j < |moves| && GetTakes(states[j], states[j + 1], moves[j].thread)
  {
    var (call, pc) := (states[j].pc[moves[j].thread].call, states[j + 1].pc[moves[j].thread]);
    var k := (call.h1, call.h2);
    match q
    case None =>
      && pc == Returned(call, NOT_FOUND, None)
      && forall r :: 0 <= r < j ==> !PutTakes(states[r], states[r + 1], moves[r].thread, k)
    case Some(p) =>
      && p < j && PutTakes(states[p], states[p + 1], moves[p].thread, k)
      && pc == Returned(call, OK, if call.want then Some(states[p].pc[moves[p].thread].call.value) else None)
      && forall r :: p < r < j ==> !PutTakes(states[r], states[r + 1], moves[r].thread, k)
  }

  lemma PutsMirror(s: State, s': State, t: HashTrie.State<Pair>, t': HashTrie.State<Pair>, i: nat, k: Pair)
    requires Mirrors(s, t) && Mirrors(s', t') && i < |s.pc| && |s'.pc| == |s.pc|
    ensures PutTakes(s, s', i, k) <==> HashTrie.PutTakes(t, t', i, k)
    ensures PutTakes(s, s', i, k) ==> HashTrie.PhaseOf(t.pc[i]).op.value == s.pc[i].call.value
  {
    hide AsTrie;
    assert SamePoint(s.pc[i], t.pc[i]) && SamePoint(s'.pc[i], t'.pc[i]);
  }

  /** What a move does to the pair `k`, on both sides. */
  ghost predicate Mirrored(s: State, s': State, t: HashTrie.State<Pair>, t': HashTrie.State<Pair>, i: nat, k: Pair) {
    && (PutTakes(s, s', i, k) <==> HashTrie.PutTakes(t, t', i, k))
    && (PutTakes(s, s', i, k) ==> HashTrie.PhaseOf(t.pc[i]).op.value == s.pc[i].call.value)
  }

  lemma GetMirrors(s: State, s': State, t: HashTrie.State<Pair>, t': HashTrie.State<Pair>, i: nat)
    requires Mirrors(s, t) && Mirrors(s', t') && GetTakes(s, s', i) && s'.pc[i].call == s.pc[i].call
    ensures HashTrie.GetTakes(t, t', i)
    ensures var (call, res) := (s.pc[i].call, HashTrie.PhaseOf(t'.pc[i]).res);
      && HashTrie.PhaseOf(t.pc[i]).op == AtomicMap.Get((call.h1, call.h2), call.want)
      && (res == AtomicMap.NotFound ==> s'.pc[i].status == NOT_FOUND)
      && (res.Found? ==> s'.pc[i].status == OK && s'.pc[i].out == res.value)
  {
    hide AsTrie;
    assert SamePoint(s.pc[i], t.pc[i]) && SamePoint(s'.pc[i], t'.pc[i]);
  }

  lemma StepThreads(s: State, i: nat, a: Action)
    requires Enabled(s, i, a)
    ensures i < |s.pc| && |Step(s, i, a).pc| == |s.pc|
    ensures var s' := Step(s, i, a); GetTakes(s, s', i) ==>
      s'.pc[i].call == s.pc[i].call && (s'.pc[i].status == NOT_FOUND ==> s'.pc[i].out == None)
  {
  }

  /** In every interleaving: a GetH answers with the value of the last PutH of its pair that took effect
      before it did, and NOT_FOUND exactly when there was none. By byte key (`PairOf`): a key that was put is
      never missed, and a wrong hit needs two keys with equal pairs. */
  lemma GetAnswers(threads: nat, states: seq<State>, moves: seq<Move>, j: nat) returns (q: Option<nat>)
    requires Run(threads, states, moves) && j < |moves| && GetTakes(states[j], states[j + 1], moves[j].thread)
    ensures Answered(states, moves, j, q)
  {
    hide Step, Enabled, HashTrie.Step, HashTrie.Enabled, HashTrie.Run, PAIR_KEYS, AsAction, Mirrors, HashTrie.PutTakes,
         PutTakes, HashTrie.GetTakes;
    var tries := RunIsTrieRun(threads, states, moves);
    var i := moves[j].thread;
    var k := (states[j].pc[i].call.h1, states[j].pc[i].call.h2);
    MoveMirrors(threads, states, moves, tries, j, k);
    GetMirrors(states[j], states[j + 1], tries[j], tries[j + 1], i);
    q := HashTrie.GetSeesLastPut(PAIR_KEYS, threads, tries, AsMoves(moves), j);
    forall p: nat | p < j ensures MirroredAt(states, moves, tries, p, k) {
      MoveMirrors(threads, states, moves, tries, p, k);
    }
    AnswerMirrors(states, moves, tries, j, q, k);
  }

  ghost predicate MirroredAt(states: seq<State>, moves: seq<Move>, tries: seq<HashTrie.State<Pair>>, p: nat, k: Pair)
    requires |states| == |tries| == |moves| + 1 && p < |moves|
  {
    Mirrored(states[p], states[p + 1], tries[p], tries[p + 1], moves[p].thread, k)
  }

  lemma MoveMirrors(threads: nat, states: seq<State>, moves: seq<Move>, tries: seq<HashTrie.State<Pair>>, p: nat, k: Pair)
    requires Run(threads, states, moves) && AllMirror(states, tries) && p < |moves|
    ensures MirroredAt(states, moves, tries, p, k)
    ensures Mirrors(states[p], tries[p]) && Mirrors(states[p + 1], tries[p + 1])
    ensures GetTakes(states[p], states[p + 1], moves[p].thread) ==>
      var (pc, pc') := (states[p].pc[moves[p].thread], states[p + 1].pc[moves[p].thread]);
      pc'.call == pc.call && (pc'.status == NOT_FOUND ==> pc'.out == None)
  {
    hide Step, Enabled, Mirrors, HashTrie.PutTakes, PutTakes;
    StepThreads(states[p], moves[p].thread, moves[p].action);
    assert Mirrors(states[p], tries[p]) && Mirrors(states[p + 1], tries[p + 1]);
    PutsMirror(states[p], states[p + 1], tries[p], tries[p + 1], moves[p].thread, k);
  }

  lemma AnswerMirrors(states: seq<State>, moves: seq<Move>, tries: seq<HashTrie.State<Pair>>, j: nat, q: Option<nat>, k: Pair)
    requires |states| == |tries| == |moves| + 1 && j < |moves|
    requires GetTakes(states[j], states[j + 1], moves[j].thread)
    requires HashTrie.GetTakes(tries[j], tries[j + 1], moves[j].thread)
    requires HashTrie.GetAnswered(tries, AsMoves(moves), j, q)
    requires forall p: nat :: p < j ==> MirroredAt(states, moves, tries, p, k)
    requires var (pc, pc') := (states[j].pc[moves[j].thread], states[j + 1].pc[moves[j].thread]);
      var res := HashTrie.PhaseOf(tries[j + 1].pc[moves[j].thread]).res;
      && k == (pc.call.h1, pc.call.h2) && pc'.call == pc.call && (pc'.status == NOT_FOUND ==> pc'.out == None)
      && HashTrie.PhaseOf(tries[j].pc[moves[j].thread]).op == AtomicMap.Get(k, pc.call.want)
      && (res == AtomicMap.NotFound ==> pc'.status == NOT_FOUND)
      && (res.Found? ==> pc'.status == OK && pc'.out == res.value)
    ensures Answered(states, moves, j, q)
  {
    hide HashTrie.PutTakes, PutTakes, HashTrie.PhaseOf;
    forall p: nat | p < j ensures PutTakes(states[p], states[p + 1], moves[p].thread, k)
                                  <==> HashTrie.PutTakes(tries[p], tries[p + 1], moves[p].thread, k) {
      assert MirroredAt(states, moves, tries, p, k);
    }
    if q.Some? { assert MirroredAt(states, moves, tries, q.value, k); }
  }

  // -----------------------------------------------------------------------------
  // What a PutH answers.

  /** The step in which thread `i`'s call returns. */
  predicate Decides(s: State, s': State, i: nat) {
    i < |s.pc| && i < |s'.pc| && !s.pc[i].Idle? && !s.pc[i].Returned? && s'.pc[i].Returned?
  }

  /** Thread `i` is called by move `a` and has not been called again or left when `b` moves have been made. */
  predicate InCall(moves: seq<Move>, i: nat, a: nat, b: nat)
    requires a < b <= |moves|
  {
    && moves[a].thread == i && moves[a].action.Invoke?
    && forall j :: a < j < b && moves[j].thread == i ==> !moves[j].action.Respond? && !moves[j].action.Invoke?
  }

  /** NO_MEMORY is the answer exactly of a failed node creation, which writes nothing; another PutH answers OK. */
  lemma RefusesOnlyAllocation(s: State, i: nat, a: Action)
    requires Enabled(s, i, a)
    ensures var s' := Step(s, i, a); |s'.pc| == |s.pc| && (Decides(s, s', i) ==>
      && s'.pc[i].call == s.pc[i].call
      && (s'.pc[i].status == NO_MEMORY <==> a.OutOfMemory?)
      && (s.pc[i].call.PutH? ==> s'.pc[i].status != NOT_FOUND))
    ensures a.OutOfMemory? ==> Step(s, i, a).top == s.top && Step(s, i, a).heap == s.heap
  {
    hide ReadSlot, FillSlot, NodeMatches, ReseedPair, SlotThere;
  }

  /** Every PutH in every interleaving: it stores its value under its pair and answers OK, or it answers
      NO_MEMORY in the step of a failed node creation, with nothing changed and the pair absent when it was
      called. So a PutH of a pair that is present when it is called answers OK. */
  lemma PutOutcome(threads: nat, states: seq<State>, moves: seq<Move>, i: nat, a: nat, j: nat)
    requires Run(threads, states, moves) && a < j < |moves| && InCall(moves, i, a, j)
    requires moves[a].action.call.PutH? && moves[j].thread == i && Decides(states[j], states[j + 1], i)
    ensures states[j + 1].pc[i].call == moves[a].action.call
    ensures var (call, status) := (moves[a].action.call, states[j + 1].pc[i].status); var k := (call.h1, call.h2);
      if moves[j].action.OutOfMemory? then
        && status == NO_MEMORY && states[j + 1].top == states[j].top && states[j + 1].heap == states[j].heap
        && !HasKey(AsTrie(states[a]), k)
      else
        status == OK && HasEntry(AsTrie(states[j + 1]), k, call.value)
  {
    hide Step, Enabled, HashTrie.Step, HashTrie.Enabled, HashTrie.Run, PAIR_KEYS, Mirrors, AsTrie, HasKey, HasEntry;
    var tries := RunIsTrieRun(threads, states, moves);
    var r := AsMoves(moves);
    assert Mirrors(states[a], tries[a]) && Mirrors(states[j], tries[j]) && Mirrors(states[j + 1], tries[j + 1]);
    ThreadThere(states[j], i, moves[j].action);
    PointsMirror(states[j], tries[j], i);
    RefusesOnlyAllocation(states[j], i, moves[j].action);
    PointsMirror(states[j + 1], tries[j + 1], i);
    TriesMirror(states[a], tries[a]);
    TriesMirror(states[j + 1], tries[j + 1]);
    CallMirrors(moves, i, a, j);
    HashTrieOutcomes.PutOutcome(PAIR_KEYS, threads, tries, r, i, a, j);
  }

  lemma ThreadThere(s: State, i: nat, a: Action)
    requires Enabled(s, i, a)
    ensures i < |s.pc|
  {
  }

  lemma TriesMirror(s: State, t: HashTrie.State<Pair>)
    requires Mirrors(s, t)
    ensures t.trie == AsTrie(s)
  {
    hide AsTrie;
  }

  /** A decision is a decision on both sides, about the same call. */
  lemma PointsMirror(s: State, t: HashTrie.State<Pair>, i: nat)
    requires Mirrors(s, t) && i < |s.pc|
    ensures |t.pc| == |s.pc| && (s.pc[i].Idle? <==> t.pc[i].Idle?) && (s.pc[i].Returned? <==> t.pc[i].Done?)
    ensures !s.pc[i].Idle? ==> t.pc[i].op == AsOp(s.pc[i].call)
    ensures s.pc[i].Returned? ==> t.pc[i].res == AsResult(s.pc[i].call, s.pc[i].status, s.pc[i].out)
  {
    hide AsTrie;
    assert SamePoint(s.pc[i], t.pc[i]);
  }

  lemma CallMirrors(moves: seq<Move>, i: nat, a: nat, b: nat)
    requires a < b <= |moves| && InCall(moves, i, a, b)
    ensures HashTrieProgress.InCall(AsMoves(moves), i, a, b)
    ensures AsMoves(moves)[a].action == HashTrie.Invoke(AsOp(moves[a].action.call))
    ensures b < |moves| ==> (AsMoves(moves)[b].action.OutOfMemory? <==> moves[b].action.OutOfMemory?) && AsMoves(moves)[b].thread == moves[b].thread
  {
  }
}
