/**
 The lock-free protocol of HashTrie and HashIndex as a state machine.

 Any number of threads run Put and Get on one trie. Every atomic load, store and compare-and-swap is
 one step; reading the immutable fields of a published node and filling in a private one are local.
 Publication by release/acquire is taken as given: a node's fields are visible to whoever loads a
 pointer to it.
 */
module HashTrie {
  import opened Machine
  import opened Descent
  import opened TrieShape
  import AtomicMap

  type Op<K> = AtomicMap.Op<K>
  type Result = AtomicMap.Result

  /** Where a thread stands in Put or Get. `n` is the number of slots visited so far, an auxiliary
      counter that no step reads. */
  datatype Pc<K> =
    | Idle
    | AtSlot(op: Op<K>, slot: Slot, reg: Reg, n: nat)               // about to load the slot
    | Empty(op: Op<K>, slot: Slot, reg: Reg, n: nat)                // Put: the slot was 0, about to allocate
    | Ready(op: Op<K>, slot: Slot, reg: Reg, n: nat, node: nat)     // Put: about to CAS the new node in
    | AtNode(op: Op<K>, cur: nat, reg: Reg, n: nat)                 // about to compare the node's key
    | Matched(op: Op<K>, cur: nat)                                  // about to access the node's value
    | Done(op: Op<K>, res: Result)

  /** A node that lost its CAS: which thread built it and whose node was there first. */
  datatype Loss = Loss(thread: nat, winner: nat)

  /** `owner` records the thread whose arena a node came from; `lost` the nodes that lost a race. */
  datatype State<K> = State(trie: Trie<K>, pc: seq<Pc<K>>, owner: map<nat, nat>, lost: map<nat, Loss>)

  datatype Action<K> =
    | Invoke(op: Op<K>)
    | Load
    | Alloc(node: nat)
    | OutOfMemory
    | Cas
    | Compare
    | Access
    | Respond

  ghost predicate Init<K>(s: State<K>, threads: nat) {
    s == State(Trie(seq(TOP_SIZE, _ => 0), map[]), seq(threads, _ => Idle), map[], map[])
  }

  predicate Matches<K(==)>(H: Hasher<K>, node: Node<K>, k: K) {
    node.hash == H.digest(k) && node.key == k
  }

  /** Which steps thread `i` can take next. An arena never hands out address 0 or a block in use. */
  predicate Enabled<K>(s: State<K>, i: nat, a: Action<K>) {
    && i < |s.pc|
    && match s.pc[i]
       case Idle => a.Invoke?
       case AtSlot(_, slot, _, _) => a.Load? && HasSlot(s.trie, slot)
       case Empty(op, _, _, _) => op.Put? && (a.OutOfMemory? || (a.Alloc? && a.node != 0 && a.node !in s.trie.heap))
       case Ready(_, slot, _, _, node) => a.Cas? && HasSlot(s.trie, slot)
       case AtNode(_, cur, reg, _) => a.Compare? && cur in s.trie.heap
       case Matched(_, cur) => a.Access? && cur in s.trie.heap
       case Done(_, _) => a.Respond?
  }

  function StartOp<K>(H: Hasher<K>, op: Op<K>): Pc<K> {
    AtSlot(op, Top(TopIndex(H, op.key)), Start(H, op.key), 1)
  }

  function Step<K(==)>(H: Hasher<K>, s: State<K>, i: nat, a: Action<K>): State<K>
    requires Enabled(s, i, a)
  {
    match s.pc[i]
    case Idle => s.(pc := s.pc[i := StartOp(H, a.op)])
    case AtSlot(op, slot, reg, n) =>
      var cur := Read(s.trie, slot);
      s.(pc := s.pc[i :=
        if cur != 0 then AtNode(op, cur, reg, n)
        else if op.Put? then Empty(op, slot, reg, n)
        else Done(op, AtomicMap.NotFound)])
    case Empty(op, slot, reg, n) =>
      if a.OutOfMemory? then s.(pc := s.pc[i := Done(op, AtomicMap.NoMemory)])
      else
        var node := Node([0, 0, 0, 0], H.digest(op.key), op.key, op.value);
        s.(trie := s.trie.(heap := s.trie.heap[a.node := node]),
           pc := s.pc[i := Ready(op, slot, reg, n, a.node)],
           owner := s.owner[a.node := i])
    case Ready(op, slot, reg, n, node) =>
      var prior := Read(s.trie, slot);
      if prior == 0 then
        s.(trie := Write(s.trie, slot, node), pc := s.pc[i := Done(op, AtomicMap.Ok)])
      else
        s.(pc := s.pc[i := AtNode(op, prior, reg, n)], lost := s.lost[node := Loss(i, prior)])
    case AtNode(op, cur, reg, n) =>
      s.(pc := s.pc[i :=
        if !Matches(H, s.trie.heap[cur], op.key) then AtSlot(op, Child(cur, Digit(reg)), Advance(H, op.key, reg), n + 1)
        else if op.Get? && !op.want then Done(op, AtomicMap.Found(None))
        else Matched(op, cur)])
    case Matched(op, cur) =>
      if op.Put? then
        s.(trie := StoreValue(s.trie, cur, op.value), pc := s.pc[i := Done(op, AtomicMap.Ok)])
      else
        s.(pc := s.pc[i := Done(op, AtomicMap.Found(Some(s.trie.heap[cur].value)))])
    case Done(op, res) => s.(pc := s.pc[i := Idle])
  }

  // -----------------------------------------------------------------------------
  // The invariant.

  ghost predicate Walking<K(!new)>(H: Hasher<K>, t: Trie<K>, k: K, reg: Reg, n: nat) {
    OnWay(H, t, k, n) && reg == RegAt(H, k, n - 1)
  }

  ghost predicate Standing<K(!new)>(H: Hasher<K>, t: Trie<K>, k: K, slot: Slot, reg: Reg, n: nat) {
    Walking(H, t, k, reg, n) && slot == SlotOf(t, Path(H, k, n))
  }

  /** A node that its thread has built and not yet offered to the trie. */
  ghost predicate Private<K(!new)>(H: Hasher<K>, s: State<K>, op: Op<K>, i: nat, p: nat) {
    && op.Put?
    && p in s.trie.heap && p in s.owner && p !in s.lost && s.owner[p] == i
    && s.trie.heap[p] == Node([0, 0, 0, 0], H.digest(op.key), op.key, op.value)
    && !Reachable(s.trie, p)
  }

  ghost predicate ThreadOk<K(!new)>(H: Hasher<K>, s: State<K>, i: nat)
    requires i < |s.pc|
  {
    match s.pc[i]
    case Idle => true
    case AtSlot(op, slot, reg, n) => Standing(H, s.trie, op.key, slot, reg, n)
    case Empty(op, slot, reg, n) => op.Put? && Standing(H, s.trie, op.key, slot, reg, n)
    case Ready(op, slot, reg, n, node) => Standing(H, s.trie, op.key, slot, reg, n) && Private(H, s, op, i, node)
    case AtNode(op, cur, reg, n) => Walking(H, s.trie, op.key, reg, n) && cur != 0 && cur == At(s.trie, Path(H, op.key, n))
    case Matched(op, cur) => (op.Get? ==> op.want) && Holds(s.trie, op.key, cur)
    case Done(op, res) => true
  }

  ghost predicate Inv<K(!new)>(H: Hasher<K>, s: State<K>) {
    && WellFormed(H, s.trie)
    && s.owner.Keys == s.trie.heap.Keys
    && (forall p :: p in s.lost ==> p in s.trie.heap && !Reachable(s.trie, p))
    && (forall i :: 0 <= i < |s.pc| ==> ThreadOk(H, s, i))
  }

  /** What no step ever undoes: published links, keys and allocations. */
  ghost predicate Extends<K(!new)>(t: Trie<K>, t': Trie<K>) {
    && (forall path :: At(t, path) != 0 ==> At(t', path) == At(t, path))
    && t.heap.Keys <= t'.heap.Keys
    && (forall p :: p in t.heap ==> t'.heap[p].key == t.heap[p].key && t'.heap[p].hash == t.heap[p].hash)
  }

  lemma StandingStable<K(!new)>(H: Hasher<K>, t: Trie<K>, t': Trie<K>, k: K, slot: Slot, reg: Reg, n: nat)
    requires Extends(t, t') && Standing(H, t, k, slot, reg, n)
    ensures Standing(H, t', k, slot, reg, n)
  {
    WalkingStable(H, t, t', k, reg, n);
    if n > 1 {
      PathPrefix(H, k, n - 1, n);
      assert Path(H, k, n)[..n - 1] == Path(H, k, n - 1);
      assert At(t', Path(H, k, n - 1)) == At(t, Path(H, k, n - 1));
    }
  }

  lemma WalkingStable<K(!new)>(H: Hasher<K>, t: Trie<K>, t': Trie<K>, k: K, reg: Reg, n: nat)
    requires Extends(t, t') && Walking(H, t, k, reg, n)
    ensures Walking(H, t', k, reg, n)
  {
  }

  lemma HoldsStable<K(!new)>(t: Trie<K>, t': Trie<K>, k: K, p: nat)
    requires Extends(t, t') && Holds(t, k, p)
    ensures Holds(t', k, p)
  {
    var path :| At(t, path) == p;
    assert At(t', path) == p;
  }

  /** Steps of other threads do not disturb a thread, as long as they keep its private node private. */
  lemma OthersStable<K(!new)>(H: Hasher<K>, s: State<K>, s': State<K>, j: nat)
    requires j < |s.pc| == |s'.pc| && s'.pc[j] == s.pc[j] && ThreadOk(H, s, j)
    requires Extends(s.trie, s'.trie)
    requires s.pc[j].Ready? ==> Private(H, s', s.pc[j].op, j, s.pc[j].node)
    ensures ThreadOk(H, s', j)
  {
    match s.pc[j]
    case AtSlot(op, slot, reg, n) => StandingStable(H, s.trie, s'.trie, op.key, slot, reg, n);
    case Empty(op, slot, reg, n) => StandingStable(H, s.trie, s'.trie, op.key, slot, reg, n);
    case Ready(op, slot, reg, n, node) => StandingStable(H, s.trie, s'.trie, op.key, slot, reg, n);
    case AtNode(op, cur, reg, n) => WalkingStable(H, s.trie, s'.trie, op.key, reg, n);
    case Matched(op, cur) => HoldsStable(s.trie, s'.trie, op.key, cur);
    case _ =>
  }

  // -----------------------------------------------------------------------------
  // Refinement.

  function PhaseOf<K>(pc: Pc<K>): AtomicMap.Phase<K> {
    match pc
    case Idle => AtomicMap.Idle
    case Done(op, res) => AtomicMap.Decided(op, res)
    case _ => AtomicMap.Pending(pc.op)
  }

  function Abs<K>(s: State<K>, m: map<K, u64>): AtomicMap.Spec<K> {
    AtomicMap.Spec(m, seq(|s.pc|, i requires 0 <= i < |s.pc| => PhaseOf(s.pc[i])))
  }

  function EventOf<K>(s: State<K>, i: nat, a: Action<K>): AtomicMap.Event<K>
    requires Enabled(s, i, a)
  {
    match s.pc[i]
    case Idle => AtomicMap.Call(a.op)
    case Done(op, res) => AtomicMap.Return(op, res)
    case _ => AtomicMap.Internal
  }

  ghost predicate Sim<K(!new)>(H: Hasher<K>, s: State<K>, m: map<K, u64>) {
    Inv(H, s) && Represents(s.trie, m)
  }

  /** A step of thread `i` keeps the invariant when it extends the trie and leaves private nodes private. */
  lemma StepKeepsInv<K(!new)>(H: Hasher<K>, s: State<K>, s': State<K>, i: nat)
    requires Inv(H, s) && i < |s.pc| && |s'.pc| == |s.pc| && s'.pc == s.pc[i := s'.pc[i]]
    requires WellFormed(H, s'.trie) && Extends(s.trie, s'.trie) && s'.owner.Keys == s'.trie.heap.Keys
    requires forall p :: p in s'.lost ==> p in s'.trie.heap && !Reachable(s'.trie, p)
    requires forall j :: 0 <= j < |s.pc| && j != i && s.pc[j].Ready? ==> Private(H, s', s.pc[j].op, j, s.pc[j].node)
    requires ThreadOk(H, s', i)
    ensures Inv(H, s')
  {
    forall j | 0 <= j < |s'.pc| ensures ThreadOk(H, s', j) {
      assert ThreadOk(H, s, j);
      if j != i {
        OthersStable(H, s, s', j);
      }
    }
  }

  lemma SpecStep<K(!new)>(s: State<K>, s': State<K>, i: nat, m: map<K, u64>, m': map<K, u64>)
    requires i < |s.pc| && |s'.pc| == |s.pc| && s'.pc == s.pc[i := s'.pc[i]]
    requires PhaseOf(s.pc[i]).Pending?
    requires || (PhaseOf(s'.pc[i]) == PhaseOf(s.pc[i]) && m' == m)
             || (s'.pc[i].Done? && s'.pc[i].op == s.pc[i].op && AtomicMap.Atomic(m, s.pc[i].op, s'.pc[i].res, m'))
    ensures AtomicMap.Step(Abs(s, m), Abs(s', m'), i, AtomicMap.Internal)
  {
    assert Abs(s', m').phase == Abs(s, m).phase[i := PhaseOf(s'.pc[i])];
  }

  /** When the trie stays the same, the new state of the stepping thread is all that is left to check. */
  lemma LocalStep<K(!new)>(H: Hasher<K>, s: State<K>, s': State<K>, i: nat)
    requires Inv(H, s) && i < |s.pc| && |s'.pc| == |s.pc| && s'.pc == s.pc[i := s'.pc[i]]
    requires s'.trie == s.trie && s'.owner == s.owner
    requires s'.lost == s.lost || (s.pc[i].Ready? && s'.lost.Keys == s.lost.Keys + {s.pc[i].node})
    requires ThreadOk(H, s', i)
    ensures Inv(H, s')
  {
    assert ThreadOk(H, s, i);
    forall j | 0 <= j < |s.pc| && j != i && s.pc[j].Ready? ensures Private(H, s', s.pc[j].op, j, s.pc[j].node) {
      assert ThreadOk(H, s, j);
    }
    StepKeepsInv(H, s, s', i);
  }

  lemma LoadStep<K(!new)>(H: Hasher<K>, s: State<K>, i: nat, m: map<K, u64>)
    requires Sim(H, s, m) && Enabled(s, i, Load) && s.pc[i].AtSlot?
    ensures var s' := Step(H, s, i, Load); Sim(H, s', m) && AtomicMap.Step(Abs(s, m), Abs(s', m), i, AtomicMap.Internal)
  {
    hide At, Path, RegAt, Represents, OnWay, WellFormed;
    var s' := Step(H, s, i, Load);
    var op := s.pc[i].op;
    assert ThreadOk(H, s, i);
    SlotOnPath(H, s.trie, op.key, s.pc[i].n);
    LocalStep(H, s, s', i);
    if s'.pc[i].Done? {
      MissedKey(H, s.trie, op.key, s.pc[i].n, m);
    }
    SpecStep(s, s', i, m, m);
  }

  lemma MissedKey<K(!new)>(H: Hasher<K>, t: Trie<K>, k: K, n: nat, m: map<K, u64>)
    requires WellFormed(H, t) && Represents(t, m) && OnWay(H, t, k, n) && At(t, Path(H, k, n)) == 0
    ensures k !in m
  {
    hide At, Path, WellFormed, OnWay;
    if k in m {
      var p :| Holds(t, k, p);
      MissMeansAbsent(H, t, k, n, p);
    }
  }

  lemma AllocStep<K(!new)>(H: Hasher<K>, s: State<K>, i: nat, q: nat, m: map<K, u64>)
    requires Sim(H, s, m) && Enabled(s, i, Alloc(q)) && s.pc[i].Empty?
    ensures var s' := Step(H, s, i, Alloc(q)); Sim(H, s', m) && AtomicMap.Step(Abs(s, m), Abs(s', m), i, AtomicMap.Internal)
  {
    hide At, Path, RegAt, Represents, OnWay, WellFormed, Reachable, Extends, SlotOf;
    var s' := Step(H, s, i, Alloc(q));
    var pc := s.pc[i];
    assert ThreadOk(H, s, i);
    AllocTrie(H, s.trie, s'.trie, q, pc.op.key, m);
    StandingStable(H, s.trie, s'.trie, pc.op.key, pc.slot, pc.reg, pc.n);
    AllocPrivate(H, s, s', i, q);
    StepKeepsInv(H, s, s', i);
    SpecStep(s, s', i, m, m);
  }

  lemma AllocTrie<K(!new)>(H: Hasher<K>, t: Trie<K>, t': Trie<K>, q: nat, k: K, m: map<K, u64>)
    requires WellFormed(H, t) && Represents(t, m) && q !in t.heap && q != 0 && q in t'.heap
    requires t' == t.(heap := t.heap[q := t'.heap[q]])
    requires t'.heap[q].child == [0, 0, 0, 0] && t'.heap[q].hash == H.digest(k) && t'.heap[q].key == k
    ensures WellFormed(H, t') && Represents(t', m) && Extends(t, t')
    ensures !Reachable(t', q) && forall p :: Reachable(t', p) <==> Reachable(t, p)
  {
    hide At, Path, RegAt, Represents;
    AllocLinks(H, t, t', q, k);
    AllocateRepresents(t, t', m);
    AllocReach(t, t', q);
  }

  /** A new node takes no other thread's private node away. */
  lemma AllocPrivate<K(!new)>(H: Hasher<K>, s: State<K>, s': State<K>, i: nat, q: nat)
    requires Inv(H, s) && i < |s.pc| && q !in s.trie.heap && q in s'.trie.heap && s'.lost == s.lost
    requires s'.trie.heap == s.trie.heap[q := s'.trie.heap[q]] && s'.owner == s.owner[q := i]
    requires forall p :: Reachable(s'.trie, p) <==> Reachable(s.trie, p)
    ensures forall j :: 0 <= j < |s.pc| && j != i && s.pc[j].Ready? ==> Private(H, s', s.pc[j].op, j, s.pc[j].node)
  {
    hide At, Path, RegAt, OnWay, WellFormed, Reachable;
    forall j | 0 <= j < |s.pc| && j != i && s.pc[j].Ready? ensures Private(H, s', s.pc[j].op, j, s.pc[j].node) {
      assert ThreadOk(H, s, j);
    }
  }

  lemma AllocReach<K(!new)>(t: Trie<K>, t': Trie<K>, q: nat)
    requires forall path :: At(t', path) == At(t, path)
    requires forall path :: At(t, path) != 0 ==> At(t, path) in t.heap
    requires q !in t.heap
    ensures forall p :: Reachable(t', p) <==> Reachable(t, p)
    ensures !Reachable(t', q)
  {
    forall p ensures Reachable(t', p) <==> Reachable(t, p) {
      if Reachable(t', p) { var path :| At(t', path) == p; assert At(t, path) == p; }
      if Reachable(t, p) { var path :| At(t, path) == p; assert At(t', path) == p; }
    }
  }

  /** The winning CAS: the new node becomes reachable and its key enters the map. */
  lemma CasWins<K(!new)>(H: Hasher<K>, s: State<K>, i: nat, m: map<K, u64>)
    requires Sim(H, s, m) && Enabled(s, i, Cas) && s.pc[i].Ready? && Read(s.trie, s.pc[i].slot) == 0
    ensures var s' := Step(H, s, i, Cas); var op := s.pc[i].op;
      op.Put? && Sim(H, s', m[op.key := op.value])
      && AtomicMap.Step(Abs(s, m), Abs(s', m[op.key := op.value]), i, AtomicMap.Internal)
  {
    hide At, Path, WellFormed, Represents;
    var s' := Step(H, s, i, Cas);
    var (op, n, q) := (s.pc[i].op, s.pc[i].n, s.pc[i].node);
    CasPublishes(H, s, i, m);
    forall j | 0 <= j < |s.pc| && j != i && s.pc[j].Ready? ensures Private(H, s', s.pc[j].op, j, s.pc[j].node) {
      assert ThreadOk(H, s, i) && ThreadOk(H, s, j);
      ParentReachable(H, s.trie, op.key, n);
      PrivateSurvives(H, s, s', i, j);
    }
    assert ThreadOk(H, s, i);
    StepKeepsInv(H, s, s', i);
    SpecStep(s, s', i, m, m[op.key := op.value]);
  }

  lemma CasPublishes<K(!new)>(H: Hasher<K>, s: State<K>, i: nat, m: map<K, u64>)
    requires Sim(H, s, m) && Enabled(s, i, Cas) && s.pc[i].Ready? && Read(s.trie, s.pc[i].slot) == 0
    ensures var s' := Step(H, s, i, Cas); var pc := s.pc[i];
      && pc.op.Put?
      && WellFormed(H, s'.trie) && Represents(s'.trie, m[pc.op.key := pc.op.value])
      && pc.op.key !in m
      && s'.trie.heap.Keys == s.trie.heap.Keys
      && Extends(s.trie, s'.trie)
      && (forall p :: Reachable(s'.trie, p) <==> Reachable(s.trie, p) || p == pc.node)
  {
    var s' := Step(H, s, i, Cas);
    var (op, n, q) := (s.pc[i].op, s.pc[i].n, s.pc[i].node);
    assert ThreadOk(H, s, i);
    SlotOnPath(H, s.trie, op.key, n);
    PublishCorrect(H, s.trie, op.key, n, q, m);
    PublishedReach(s.trie, s'.trie, Path(H, op.key, n), q);
  }

  lemma ParentReachable<K(!new)>(H: Hasher<K>, t: Trie<K>, k: K, n: nat)
    requires OnWay(H, t, k, n)
    ensures var slot := SlotOf(t, Path(H, k, n)); slot.Child? ==> Reachable(t, slot.p)
  {
    if n > 1 {
      PathPrefix(H, k, n - 1, n);
      assert Path(H, k, n)[..n - 1] == Path(H, k, n - 1);
    }
  }

  lemma PublishedReach<K(!new)>(t: Trie<K>, t': Trie<K>, target: seq<nat>, q: nat)
    requires Linked(t, t', target, q) && At(t, target) == 0 && q != 0
    ensures Extends(t, t')
    ensures forall p :: Reachable(t', p) <==> Reachable(t, p) || p == q
  {
    assert At(t', target) == q;
    forall p ensures Reachable(t', p) <==> Reachable(t, p) || p == q {
      if Reachable(t', p) {
        var path :| At(t', path) == p;
        if path != target { assert At(t, path) == p; }
      }
      if Reachable(t, p) {
        var path :| At(t, path) == p;
        assert At(t', path) == p;
      }
    }
  }

  /** Nodes of distinct threads are distinct, so a CAS leaves the other private nodes alone. */
  lemma PrivateSurvives<K(!new)>(H: Hasher<K>, s: State<K>, s': State<K>, i: nat, j: nat)
    requires i < |s.pc| && j < |s.pc| && i != j && s.pc[i].Ready? && s.pc[j].Ready?
    requires Private(H, s, s.pc[i].op, i, s.pc[i].node) && Private(H, s, s.pc[j].op, j, s.pc[j].node)
    requires HasSlot(s.trie, s.pc[i].slot) && s'.trie == Write(s.trie, s.pc[i].slot, s.pc[i].node)
    requires s'.owner == s.owner && s'.lost == s.lost
    requires s.pc[i].slot.Child? ==> Reachable(s.trie, s.pc[i].slot.p)
    requires forall p :: Reachable(s'.trie, p) <==> Reachable(s.trie, p) || p == s.pc[i].node
    ensures Private(H, s', s.pc[j].op, j, s.pc[j].node)
  {
  }

  /** The losing CAS: the winner's node is found in the slot, and the walk goes on from there. */
  lemma CasLoses<K(!new)>(H: Hasher<K>, s: State<K>, i: nat, m: map<K, u64>)
    requires Sim(H, s, m) && Enabled(s, i, Cas) && s.pc[i].Ready? && Read(s.trie, s.pc[i].slot) != 0
    ensures var s' := Step(H, s, i, Cas); Sim(H, s', m) && AtomicMap.Step(Abs(s, m), Abs(s', m), i, AtomicMap.Internal)
  {
    hide At, Path, WellFormed, Represents;
    var s' := Step(H, s, i, Cas);
    assert ThreadOk(H, s, i);
    SlotOnPath(H, s.trie, s.pc[i].op.key, s.pc[i].n);
    LocalStep(H, s, s', i);
    SpecStep(s, s', i, m, m);
  }

  lemma CompareStep<K(!new)>(H: Hasher<K>, s: State<K>, i: nat, m: map<K, u64>)
    requires Sim(H, s, m) && Enabled(s, i, Compare) && s.pc[i].AtNode?
    ensures var s' := Step(H, s, i, Compare); Sim(H, s', m) && AtomicMap.Step(Abs(s, m), Abs(s', m), i, AtomicMap.Internal)
  {
    hide At, Path, Represents;
    var s' := Step(H, s, i, Compare);
    var (op, cur, n) := (s.pc[i].op, s.pc[i].cur, s.pc[i].n);
    assert ThreadOk(H, s, i);
    assert Reachable(s.trie, cur);
    if s'.pc[i].AtSlot? {
      NextSlot(H, s.trie, op.key, s.pc[i].reg, n);
    } else {
      assert Holds(s.trie, op.key, cur);
      HeldValue(s.trie, op.key, cur, m);
    }
    LocalStep(H, s, s', i);
    SpecStep(s, s', i, m, m);
  }

  lemma NextSlot<K(!new)>(H: Hasher<K>, t: Trie<K>, k: K, reg: Reg, n: nat)
    requires Walking(H, t, k, reg, n)
    requires var p := At(t, Path(H, k, n)); p != 0 && p in t.heap && KeyOf(t, p) != k
    ensures Standing(H, t, k, Child(At(t, Path(H, k, n)), Digit(reg)), Advance(H, k, reg), n + 1)
  {
    hide At;
    PathPrefix(H, k, n, n + 1);
  }

  lemma AccessStep<K(!new)>(H: Hasher<K>, s: State<K>, i: nat, m: map<K, u64>) returns (m': map<K, u64>)
    requires Sim(H, s, m) && Enabled(s, i, Access) && s.pc[i].Matched?
    ensures var s' := Step(H, s, i, Access); Sim(H, s', m') && AtomicMap.Step(Abs(s, m), Abs(s', m'), i, AtomicMap.Internal)
  {
    hide At, Path, WellFormed, Represents;
    var s' := Step(H, s, i, Access);
    var (op, cur) := (s.pc[i].op, s.pc[i].cur);
    assert ThreadOk(H, s, i);
    if op.Put? {
      m' := m[op.key := op.value];
      StoreCorrect(H, s.trie, cur, op.value, m);
      StoreReach(s.trie, s'.trie);
      forall j | 0 <= j < |s.pc| && j != i && s.pc[j].Ready? ensures Private(H, s', s.pc[j].op, j, s.pc[j].node) {
        assert ThreadOk(H, s, j);
      }
      StepKeepsInv(H, s, s', i);
    } else {
      m' := m;
      HeldValue(s.trie, op.key, cur, m);
      LocalStep(H, s, s', i);
    }
    SpecStep(s, s', i, m, m');
  }

  lemma StoreReach<K(!new)>(t: Trie<K>, t': Trie<K>)
    requires forall path :: At(t', path) == At(t, path)
    ensures forall p :: Reachable(t', p) <==> Reachable(t, p)
  {
    forall p ensures Reachable(t', p) <==> Reachable(t, p) {
      if Reachable(t', p) { var path :| At(t', path) == p; assert At(t, path) == p; }
      if Reachable(t, p) { var path :| At(t, path) == p; assert At(t', path) == p; }
    }
  }

  lemma StartStands<K(!new)>(H: Hasher<K>, t: Trie<K>, k: K)
    ensures Standing(H, t, k, Top(TopIndex(H, k)), Start(H, k), 1)
  {
    hide At;
  }

  lemma EdgeStep<K(!new)>(H: Hasher<K>, s: State<K>, i: nat, a: Action<K>, m: map<K, u64>)
    requires Sim(H, s, m) && Enabled(s, i, a) && (s.pc[i].Idle? || s.pc[i].Done? || (s.pc[i].Empty? && a.OutOfMemory?))
    ensures var s' := Step(H, s, i, a); Sim(H, s', m) && AtomicMap.Step(Abs(s, m), Abs(s', m), i, EventOf(s, i, a))
  {
    hide At, Path, RegAt, Represents, WellFormed, Standing, TopIndex, Start;
    var s' := Step(H, s, i, a);
    if s.pc[i].Idle? { StartStands(H, s.trie, a.op.key); }
    LocalStep(H, s, s', i);
    assert Abs(s', m).phase == Abs(s, m).phase[i := PhaseOf(s'.pc[i])];
  }

  /** Every step of every thread keeps the invariant and is a step of the atomic map. */
  lemma StepSimulates<K(!new)>(H: Hasher<K>, s: State<K>, i: nat, a: Action<K>, m: map<K,
                        u64>) returns (m': map<K, u64>)
    requires Sim(H, s, m) && Enabled(s, i, a)
    ensures var s' := Step(H, s, i, a); Sim(H, s', m') && AtomicMap.Step(Abs(s, m), Abs(s', m'), i, EventOf(s, i, a))
  {
    m' := m;
    match s.pc[i]
    case AtSlot(_, _, _, _) => LoadStep(H, s, i, m);
    case Empty(_, _, _, _) => if a.Alloc? { AllocStep(H, s, i, a.node, m); } else { EdgeStep(H, s, i, a, m); }
    case Ready(op, slot, _, _, _) =>
      if Read(s.trie, slot) == 0 {
        CasWins(H, s, i, m);
        m' := m[op.key := op.value];
      } else {
        CasLoses(H, s, i, m);
      }
    case AtNode(_, _, _, _) => CompareStep(H, s, i, m);
    case Matched(_, _) => m' := AccessStep(H, s, i, m);
    case _ => EdgeStep(H, s, i, a, m);
  }

  // -----------------------------------------------------------------------------
  // Whole runs.

  datatype Move<K> = Move(thread: nat, action: Action<K>)

  /** `states` is a run of the trie that starts empty and takes `moves` one by one. */
  ghost predicate Run<K(!new)>(H: Hasher<K>, threads: nat, states: seq<State<K>>, moves: seq<Move<K>>) {
    && |states| == |moves| + 1
    && Init(states[0], threads)
    && forall j :: 0 <= j < |moves| ==>
      Enabled(states[j], moves[j].thread, moves[j].action)
      && states[j + 1] == Step(H, states[j], moves[j].thread, moves[j].action)
  }

  ghost predicate SpecRun<K(!new)>(H: Hasher<K>, threads: nat, states: seq<State<K>>, moves: seq<Move<K>>,
                            specs: seq<AtomicMap.Spec<K>>)
    requires Run(H, threads, states, moves)
  {
    && |specs| == |states|
    && AtomicMap.Start(specs[0], threads)
    && (forall j :: 0 <= j < |moves| ==>
          AtomicMap.Step(specs[j], specs[j + 1], moves[j].thread, EventOf(states[j], moves[j].thread, moves[j].action)))
    && (forall j :: 0 <= j < |states| ==> Inv(H, states[j]) && Represents(states[j].trie, specs[j].m)
                                          && specs[j] == Abs(states[j], specs[j].m))
  }

  /** Linearizability: every interleaving of any number of threads has a run of the atomic map with
      exactly the same calls, returns and results, and the invariant holds throughout. */
  lemma {:induction false} Linearizable<K(!new)>(H: Hasher<K>, threads: nat, states: seq<State<K>>, moves: seq<Move<K>>)
    returns (specs: seq<AtomicMap.Spec<K>>)
    requires Run(H, threads, states, moves)
    ensures SpecRun(H, threads, states, moves, specs)
    decreases |moves|
  {
    hide At, Path, WellFormed, Represents, Step, Enabled, AtomicMap.Step;
    if |moves| == 0 {
      EmptyIsWellFormed(H, states[0].trie);
      specs := [Abs(states[0], map[])];
      EmptyReach(states[0].trie);
    } else {
      var last := |moves| - 1;
      var front := Linearizable(H, threads, states[..last + 1], moves[..last]);
      var m' := StepSimulates(H, states[last], moves[last].thread, moves[last].action, front[last].m);
      specs := front + [Abs(states[last + 1], m')];
    }
  }

  /** Thread `i`'s Put of `k` takes effect in the step from `s` to `s'`. */
  ghost predicate PutTakes<K>(s: State<K>, s': State<K>, i: nat, k: K) {
    i < |s.pc| && i < |s'.pc| && AtomicMap.PutTakes(PhaseOf(s.pc[i]), PhaseOf(s'.pc[i]), k)
  }

  ghost predicate GetTakes<K>(s: State<K>, s': State<K>, i: nat) {
    && i < |s.pc| && i < |s'.pc|
    && PhaseOf(s.pc[i]).Pending? && PhaseOf(s.pc[i]).op.Get? && PhaseOf(s'.pc[i]).Decided?
  }

  /** What a Get answers when the last effective Put of its key is move `q`; None if there is none. */
  ghost predicate GetAnswered<K(!new)>(states: seq<State<K>>, moves: seq<Move<K>>, j: nat, q: Option<nat>)
    requires |states| == |moves| + 1 && j < |moves| && GetTakes(states[j], states[j + 1], moves[j].thread)
  {
    var i := moves[j].thread;
    var (op, res) := (PhaseOf(states[j].pc[i]).op, PhaseOf(states[j + 1].pc[i]).res);
    match q
    case None =>
      && res == AtomicMap.NotFound
      && forall r :: 0 <= r < j ==> !PutTakes(states[r], states[r + 1], moves[r].thread, op.key)
    case Some(p) =>
      && p < j && PutTakes(states[p], states[p + 1], moves[p].thread, op.key)
      && res == AtomicMap.Found(if op.want then Some(PhaseOf(states[p].pc[moves[p].thread]).op.value) else None)
      && forall r :: p < r < j ==> !PutTakes(states[r], states[r + 1], moves[r].thread, op.key)
  }

  /** In every interleaving a Get answers with the value of the last Put of its key that took effect before
      it did, and with NotFound exactly when there was none. */
  lemma GetSeesLastPut<K(!new)>(H: Hasher<K>, threads: nat, states: seq<State<K>>, moves: seq<Move<K>>, j: nat)
    returns (q: Option<nat>)
    requires Run(H, threads, states, moves) && j < |moves| && GetTakes(states[j], states[j + 1], moves[j].thread)
    ensures GetAnswered(states, moves, j, q)
  {
    hide At, Path, WellFormed, Represents, Step, Inv, AtomicMap.Step, AtomicMap.PutTakes, PhaseOf;
    var specs := Linearizable(H, threads, states, moves);
    var labels := Labels(H, threads, states, moves);
    assert AtomicMap.Run(specs, threads, labels);
    var k := PhaseOf(states[j].pc[moves[j].thread]).op.key;
    var p := AtomicMap.MapIsLastPut(specs, threads, labels, j, k);
    forall r: nat | r < j ensures AtomicMap.PutAt(specs[r], specs[r + 1], labels[r].0, k)
                                  <==> PutTakes(states[r], states[r + 1], moves[r].thread, k) {
    }
    GetReads(specs[j], specs[j + 1], moves[j].thread, labels[j].1);
    q := if k in specs[j].m then Some(p) else None;
  }

  ghost function Labels<K(!new)>(H: Hasher<K>, threads: nat, states: seq<State<K>>, moves: seq<Move<K>>):
    (labels: seq<(nat, AtomicMap.Event<K>)>)
    requires Run(H, threads, states, moves)
    ensures |labels| == |moves|
    ensures forall j :: 0 <= j < |moves| ==> labels[j] == (moves[j].thread, EventOf(states[j], moves[j].thread, moves[j].action))
  {
    seq(|moves|, j requires 0 <= j < |moves| => (moves[j].thread, EventOf(states[j], moves[j].thread, moves[j].action)))
  }

  lemma GetReads<K>(s: AtomicMap.Spec<K>, s': AtomicMap.Spec<K>, i: nat, e: AtomicMap.Event<K>)
    requires AtomicMap.Step(s, s', i, e) && i < |s.phase| && i < |s'.phase|
    requires s.phase[i].Pending? && s.phase[i].op.Get? && s'.phase[i].Decided?
    ensures var op := s.phase[i].op;
      s'.phase[i].res == if op.key !in s.m then AtomicMap.NotFound else AtomicMap.Found(if op.want then Some(s.m[op.key]) else None)
  {
  }

  lemma EmptyReach<K(!new)>(t: Trie<K>)
    requires t.heap == map[] && t.top == seq(TOP_SIZE, _ => 0)
    ensures forall path :: At(t, path) == 0
  {
    forall path ensures At(t, path) == 0 { }
  }
}
