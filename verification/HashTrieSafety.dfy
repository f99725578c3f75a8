/**
 What the lock-free protocol keeps, step by step and over whole runs: links are write-once, and every
 allocated node is accounted for.
 */
module HashTrieSafety {
  import opened Machine
  import opened Descent
  import opened TrieShape
  import opened HashTrie
  import AtomicMap

  /** A slot that is not empty never changes. */
  ghost predicate WriteOnce<K>(t: Trie<K>, t': Trie<K>) {
    && t.heap.Keys <= t'.heap.Keys
    && (forall p :: p in t.heap ==> t'.heap[p].key == t.heap[p].key && t'.heap[p].hash == t.heap[p].hash)
    && (forall slot :: HasSlot(t, slot) ==>
          HasSlot(t', slot) && (Read(t, slot) != 0 ==> Read(t', slot) == Read(t, slot)))
  }

  /** What a step does to the trie: nothing, a new private node, a link, or a value. */
  ghost predicate TrieStep<K(!new)>(H: Hasher<K>, s: State<K>, i: nat, a: Action<K>, t': Trie<K>)
    requires Enabled(s, i, a)
  {
    var (t, pc) := (s.trie, s.pc[i]);
    if pc.Empty? && a.Alloc? then
      t' == t.(heap := t.heap[a.node := Node([0, 0, 0, 0], H.digest(pc.op.key), pc.op.key, pc.op.value)])
    else if Wins(s, i, a) then t' == Write(t, pc.slot, pc.node)
    else if pc.Matched? && pc.op.Put? then t' == StoreValue(t, pc.cur, pc.op.value)
    else t' == t
  }

  lemma StepTrie<K(!new)>(H: Hasher<K>, s: State<K>, i: nat, a: Action<K>)
    requires Enabled(s, i, a)
    ensures TrieStep(H, s, i, a, Step(H, s, i, a).trie)
  {
    hide Advance, Start, Digit, Matches, TopIndex, Read, Write, StoreValue;
  }

  lemma StepWritesOnce<K(!new)>(H: Hasher<K>, s: State<K>, i: nat, a: Action<K>)
    requires Enabled(s, i, a)
    ensures WriteOnce(s.trie, Step(H, s, i, a).trie)
  {
    StepTrie(H, s, i, a);
    hide Step;
  }

  lemma {:induction false} WriteOnceAt<K>(t: Trie<K>, t': Trie<K>, path: seq<nat>)
    requires WriteOnce(t, t') && 0 !in t.heap && At(t, path) != 0
    ensures At(t', path) == At(t, path)
    decreases |path|
  {
    var last := |path| - 1;
    if last == 0 {
      assert Read(t, Top(path[0])) != 0;
      assert HasSlot(t', Top(path[0]));
    } else {
      var p := At(t, path[..last]);
      assert HasSlot(t, Child(p, path[last]));
      WriteOnceAt(t, t', path[..last]);
      assert Read(t, Child(p, path[last])) != 0;
      assert HasSlot(t', Child(p, path[last]));
    }
  }

  lemma WriteOnceExtends<K(!new)>(t: Trie<K>, t': Trie<K>)
    requires WriteOnce(t, t') && 0 !in t.heap
    ensures Extends(t, t')
  {
    forall path | At(t, path) != 0 ensures At(t', path) == At(t, path) {
      WriteOnceAt(t, t', path);
    }
  }

  lemma NoNullNode<K(!new)>(H: Hasher<K>, t: Trie<K>)
    requires WellFormed(H, t)
    ensures 0 !in t.heap
  {
  }

  lemma ExtendsTransitive<K(!new)>(a: Trie<K>, b: Trie<K>, c: Trie<K>)
    requires Extends(a, b) && Extends(b, c)
    ensures Extends(a, c)
  {
    hide At;
    forall path | At(a, path) != 0 ensures At(c, path) == At(a, path) {
      assert At(b, path) == At(a, path);
    }
  }

  /** Once published, a node stays reachable at the same place with the same key, for the rest of the run. */
  lemma {:induction false} PublishedForever<K(!new)>(H: Hasher<K>, threads: nat, states: seq<State<K>>,
                                              moves: seq<Move<K>>, a: nat, b: nat)
    requires Run(H, threads, states, moves) && a <= b < |states|
    ensures Extends(states[a].trie, states[b].trie)
    decreases b
  {
    hide At, Path, WellFormed, Represents, Step, Enabled, AtomicMap.Step;
    if a < b {
      PublishedForever(H, threads, states, moves, a, b - 1);
      var specs := Linearizable(H, threads, states, moves);
      assert Inv(H, states[b - 1]);
      var mv := moves[b - 1];
      StepWritesOnce(H, states[b - 1], mv.thread, mv.action);
      NoNullNode(H, states[b - 1].trie);
      WriteOnceExtends(states[b - 1].trie, states[b].trie);
      ExtendsTransitive(states[a].trie, states[b - 1].trie, states[b].trie);
    }
  }

  // -----------------------------------------------------------------------------
  // Where the allocated nodes are.

  ghost function ReachSet<K(!new)>(t: Trie<K>): set<nat> {
    set p | p in t.heap && Reachable(t, p)
  }

  /** Nodes that a thread has allocated and not yet offered. */
  function InFlight<K>(s: State<K>): set<nat> {
    set i | 0 <= i < |s.pc| && s.pc[i].Ready? :: s.pc[i].node
  }

  ghost predicate Waiting<K(!new)>(s: State<K>, i: nat, slot: Slot) {
    i < |s.pc| && (s.pc[i].Empty? || s.pc[i].Ready?) && s.pc[i].slot == slot
  }

  /** Thread `i` neither built node `w` nor has lost a race to it. */
  ghost predicate Unbeaten<K>(s: State<K>, i: nat, w: nat) {
    && (w in s.owner ==> s.owner[w] != i)
    && (forall p :: p in s.lost ==> s.lost[p] != Loss(i, w))
  }

  ghost predicate NoneForgotten<K(!new)>(s: State<K>) {
    forall p :: p in s.trie.heap ==> Reachable(s.trie, p) || p in s.lost || p in InFlight(s)
  }

  ghost predicate LossesReal<K(!new)>(s: State<K>) {
    forall p :: p in s.lost ==>
      && p in s.owner && s.lost[p].thread == s.owner[p]
      && s.lost[p].winner in s.owner && Reachable(s.trie, s.lost[p].winner)
      && s.owner[s.lost[p].winner] != s.lost[p].thread
  }

  ghost predicate LossesDistinct<K(!new)>(s: State<K>) {
    forall p, q :: p in s.lost && q in s.lost && s.lost[p] == s.lost[q] ==> p == q
  }

  ghost predicate WaitersUnbeaten<K(!new)>(s: State<K>) {
    forall i, slot :: Waiting(s, i, slot) && HasSlot(s.trie, slot) && Read(s.trie, slot) != 0 ==>
      Unbeaten(s, i, Read(s.trie, slot))
  }

  /** Race bookkeeping: who lost to whom, and that a thread loses to a given winner at most once. */
  ghost predicate Accounted<K(!new)>(s: State<K>) {
    NoneForgotten(s) && LossesReal(s) && LossesDistinct(s) && WaitersUnbeaten(s)
  }

  ghost predicate Wins<K>(s: State<K>, i: nat, a: Action<K>)
    requires Enabled(s, i, a)
  {
    s.pc[i].Ready? && Read(s.trie, s.pc[i].slot) == 0
  }

  lemma WinReach<K(!new)>(H: Hasher<K>, s: State<K>, i: nat)
    requires Inv(H, s) && Enabled(s, i, Cas) && s.pc[i].Ready? && Read(s.trie, s.pc[i].slot) == 0
    ensures forall p :: Reachable(Step(H, s, i, Cas).trie, p) <==> Reachable(s.trie, p) || p == s.pc[i].node
  {
    hide RegAt;
    var t := s.trie;
    var (k, n, q) := (s.pc[i].op.key, s.pc[i].n, s.pc[i].node);
    assert ThreadOk(H, s, i);
    SlotOnPath(H, t, k, n);
    assert Injective(t) by {
      forall x, y | At(t, x) == At(t, y) != 0 ensures x == y { OnePath(H, t, x, y); }
    }
    LinkedBy(t, Path(H, k, n), q);
    PublishedReach(t, Step(H, s, i, Cas).trie, Path(H, k, n), q);
  }

  lemma QuietReach<K(!new)>(H: Hasher<K>, s: State<K>, i: nat, a: Action<K>)
    requires Inv(H, s) && Enabled(s, i, a) && !Wins(s, i, a)
    ensures forall p :: Reachable(Step(H, s, i, a).trie, p) <==> Reachable(s.trie, p)
  {
    hide At, Path, WellFormed, Reachable;
    var (t, pc) := (s.trie, s.pc[i]);
    var t' := Step(H, s, i, a).trie;
    StepTrie(H, s, i, a);
    hide Step, StoreValue;
    if pc.Empty? && a.Alloc? {
      AllocLinks(H, t, t', a.node, pc.op.key);
      StoreReach(t, t');
    } else if pc.Matched? && pc.op.Put? {
      StoreLinks(H, t, pc.cur, pc.op.value);
      StoreReach(t, t');
    }
  }

  /** Only a winning CAS makes a node reachable, and only the one it publishes. */
  lemma StepReach<K(!new)>(H: Hasher<K>, s: State<K>, i: nat, a: Action<K>)
    requires Inv(H, s) && Enabled(s, i, a)
    ensures forall p :: Reachable(Step(H, s, i, a).trie, p) <==> Reachable(s.trie, p) || (Wins(s, i, a) && p == s.pc[i].node)
  {
    if Wins(s, i, a) { WinReach(H, s, i); } else { QuietReach(H, s, i, a); }
  }

  lemma StepForgetsNone<K(!new)>(H: Hasher<K>, s: State<K>, i: nat, a: Action<K>)
    requires Inv(H, s) && Enabled(s, i, a) && NoneForgotten(s)
    ensures NoneForgotten(Step(H, s, i, a))
  {
    hide At, Path, WellFormed;
    var s' := Step(H, s, i, a);
    StepReach(H, s, i, a);
    forall p | p in s'.trie.heap ensures Reachable(s'.trie, p) || p in s'.lost || p in InFlight(s') {
      if p in s.trie.heap && p in InFlight(s) {
        var j :| 0 <= j < |s.pc| && s.pc[j].Ready? && s.pc[j].node == p;
        if j != i { assert s'.pc[j] == s.pc[j]; }
      } else if p !in s.trie.heap {
        assert s'.pc[i].Ready?;
      }
    }
  }

  lemma StepLossesReal<K(!new)>(H: Hasher<K>, s: State<K>, i: nat, a: Action<K>)
    requires Inv(H, s) && Enabled(s, i, a) && LossesReal(s) && WaitersUnbeaten(s)
    ensures LossesReal(Step(H, s, i, a))
  {
    hide At, Path, WellFormed, WaitersUnbeaten, Advance, Start, Digit, TopIndex, Reachable, Standing, Walking;
    var s' := Step(H, s, i, a);
    StepReach(H, s, i, a);
    assert ThreadOk(H, s, i);
    StepBooks(H, s, i, a);
    hide Step;
    if s.pc[i].Ready? && !Wins(s, i, a) {
      LoserSees(H, s, i);
    }
  }

  /** What a step writes in the books: a loss, a new owner, or nothing. */
  lemma StepBooks<K(!new)>(H: Hasher<K>, s: State<K>, i: nat, a: Action<K>)
    requires Enabled(s, i, a)
    ensures var s' := Step(H, s, i, a); var pc := s.pc[i];
      && s'.lost == (if pc.Ready? && !Wins(s, i, a) then s.lost[pc.node := Loss(i, Read(s.trie, pc.slot))] else s.lost)
      && s'.owner == (if pc.Empty? && a.Alloc? then s.owner[a.node := i] else s.owner)
  {
    hide Advance, Start, Digit, Matches, TopIndex, Read, Write, StoreValue, HasSlot;
  }

  /** A losing CAS finds a reachable node that some other thread built. */
  lemma LoserSees<K(!new)>(H: Hasher<K>, s: State<K>, i: nat)
    requires Inv(H, s) && i < |s.pc| && s.pc[i].Ready? && WaitersUnbeaten(s)
    requires HasSlot(s.trie, s.pc[i].slot) && Read(s.trie, s.pc[i].slot) != 0
    ensures var w := Read(s.trie, s.pc[i].slot); Reachable(s.trie, w) && w in s.owner && Unbeaten(s, i, w)
  {
    var pc := s.pc[i];
    assert ThreadOk(H, s, i);
    SlotOnPath(H, s.trie, pc.op.key, pc.n);
    assert Waiting(s, i, pc.slot);
  }

  lemma StepLossesDistinct<K(!new)>(H: Hasher<K>, s: State<K>, i: nat, a: Action<K>)
    requires Inv(H, s) && Enabled(s, i, a) && LossesDistinct(s) && WaitersUnbeaten(s)
    ensures LossesDistinct(Step(H, s, i, a))
  {
    hide At, Path, WellFormed, WaitersUnbeaten, Advance, Start, Digit, TopIndex, Reachable, ThreadOk;
    if s.pc[i].Ready? && !Wins(s, i, a) {
      LoserSees(H, s, i);
    }
  }

  lemma UnbeatenStays<K(!new)>(H: Hasher<K>, s: State<K>, i: nat, a: Action<K>, j: nat, w: nat)
    requires Enabled(s, i, a) && j != i && w in s.owner && Unbeaten(s, j, w)
    requires s.owner.Keys == s.trie.heap.Keys
    ensures Unbeaten(Step(H, s, i, a), j, w)
  {
  }

  /** Nobody can have lost to a node that was not published before. */
  lemma FreshUnbeaten<K(!new)>(H: Hasher<K>, s: State<K>, i: nat, j: nat)
    requires Enabled(s, i, Cas) && s.pc[i].Ready? && Read(s.trie, s.pc[i].slot) == 0 && j != i
    requires Private(H, s, s.pc[i].op, i, s.pc[i].node) && LossesReal(s)
    ensures Unbeaten(Step(H, s, i, Cas), j, s.pc[i].node)
  {
    hide At, Path;
  }

  lemma OnlyWinnerWrites<K(!new)>(H: Hasher<K>, s: State<K>, i: nat, a: Action<K>, slot: Slot)
    requires Enabled(s, i, a) && HasSlot(s.trie, slot)
    ensures var t' := Step(H, s, i, a).trie;
      HasSlot(t', slot)
      && (Read(t', slot) == Read(s.trie, slot) || (Wins(s, i, a) && Read(s.trie, slot) == 0 && Read(t', slot) == s.pc[i].node))
  {
  }

  /** Another thread's step leaves a waiting thread unbeaten by whatever its slot now holds. */
  lemma OthersUnbeaten<K(!new)>(H: Hasher<K>, s: State<K>, i: nat, a: Action<K>, j: nat)
    requires Inv(H, s) && Enabled(s, i, a) && Accounted(s)
    requires j < |s.pc| && j != i && (s.pc[j].Empty? || s.pc[j].Ready?)
    requires HasSlot(s.trie, s.pc[j].slot)
    ensures var s' := Step(H, s, i, a); var slot := s.pc[j].slot;
      HasSlot(s'.trie, slot) && (Read(s'.trie, slot) != 0 ==> Unbeaten(s', j, Read(s'.trie, slot)))
  {
    hide At, Path, WellFormed, Step, Unbeaten;
    var slot := s.pc[j].slot;
    assert Waiting(s, j, slot);
    assert ThreadOk(H, s, i);
    OnlyWinnerWrites(H, s, i, a, slot);
    if Read(s.trie, slot) != 0 {
      ReadInOwner(H, s, j);
      UnbeatenStays(H, s, i, a, j, Read(s.trie, slot));
    } else if Wins(s, i, a) {
      FreshUnbeaten(H, s, i, j);
    }
  }

  lemma StepWaitersUnbeaten<K(!new)>(H: Hasher<K>, s: State<K>, i: nat, a: Action<K>)
    requires Inv(H, s) && Enabled(s, i, a) && Accounted(s)
    ensures WaitersUnbeaten(Step(H, s, i, a))
  {
    hide At, Path, WellFormed, Step, Unbeaten, Read;
    var s' := Step(H, s, i, a);
    OthersKeepPc(H, s, i, a);
    SelfWaits(H, s, i, a);
    forall j, slot | Waiting(s', j, slot) && HasSlot(s'.trie, slot) && Read(s'.trie, slot) != 0
      ensures Unbeaten(s', j, Read(s'.trie, slot))
    {
      if j != i {
        WaiterHasSlot(H, s, j);
        OthersUnbeaten(H, s, i, a, j);
      } else if s'.pc[i].Ready? {
        assert Waiting(s, i, slot);
        WaiterHasSlot(H, s, i);
        OnlyWinnerWrites(H, s, i, a, slot);
        ReadInOwner(H, s, i);
        AllocUnbeaten(H, s, i, a, Read(s.trie, slot));
      }
    }
  }

  lemma OthersKeepPc<K(!new)>(H: Hasher<K>, s: State<K>, i: nat, a: Action<K>)
    requires Enabled(s, i, a)
    ensures var s' := Step(H, s, i, a); |s'.pc| == |s.pc| && forall j :: 0 <= j < |s.pc| && j != i ==> s'.pc[j] == s.pc[j]
  {
    hide Advance, Start, Digit, Matches, TopIndex, Read, Write, StoreValue, HasSlot;
  }

  /** The stepping thread waits only where it has just seen an empty slot, or has just allocated. */
  lemma SelfWaits<K(!new)>(H: Hasher<K>, s: State<K>, i: nat, a: Action<K>)
    requires Enabled(s, i, a)
    ensures var s' := Step(H, s, i, a);
      && i < |s'.pc|
      && (s'.pc[i].Empty? ==> s'.trie == s.trie && HasSlot(s.trie, s'.pc[i].slot) && Read(s.trie, s'.pc[i].slot) == 0)
      && (s'.pc[i].Ready? ==> s.pc[i].Empty? && a.Alloc? && s'.pc[i].slot == s.pc[i].slot)
  {
    hide Advance, Start, Digit, Matches, TopIndex, Read, Write, StoreValue, HasSlot;
  }

  /** Allocating loses no race. */
  lemma AllocUnbeaten<K(!new)>(H: Hasher<K>, s: State<K>, i: nat, a: Action<K>, w: nat)
    requires Inv(H, s) && Enabled(s, i, a) && s.pc[i].Empty? && a.Alloc? && w in s.owner && Unbeaten(s, i, w)
    ensures Unbeaten(Step(H, s, i, a), i, w)
  {
    hide WellFormed, ThreadOk, Reachable;
    StepBooks(H, s, i, a);
    hide Step;
  }

  lemma WaiterHasSlot<K(!new)>(H: Hasher<K>, s: State<K>, j: nat)
    requires Inv(H, s) && j < |s.pc| && (s.pc[j].Empty? || s.pc[j].Ready?)
    ensures HasSlot(s.trie, s.pc[j].slot)
  {
    assert ThreadOk(H, s, j);
    SlotOnPath(H, s.trie, s.pc[j].op.key, s.pc[j].n);
  }

  lemma ReadInOwner<K(!new)>(H: Hasher<K>, s: State<K>, j: nat)
    requires Inv(H, s) && j < |s.pc| && (s.pc[j].Empty? || s.pc[j].Ready?)
    requires HasSlot(s.trie, s.pc[j].slot) && Read(s.trie, s.pc[j].slot) != 0
    ensures Read(s.trie, s.pc[j].slot) in s.owner
  {
    assert ThreadOk(H, s, j);
    SlotOnPath(H, s.trie, s.pc[j].op.key, s.pc[j].n);
  }

  lemma StepAccounts<K(!new)>(H: Hasher<K>, s: State<K>, i: nat, a: Action<K>)
    requires Inv(H, s) && Enabled(s, i, a) && Accounted(s)
    ensures Accounted(Step(H, s, i, a))
  {
    StepForgetsNone(H, s, i, a);
    StepLossesReal(H, s, i, a);
    StepLossesDistinct(H, s, i, a);
    StepWaitersUnbeaten(H, s, i, a);
  }

  // -----------------------------------------------------------------------------
  // Counting.

  lemma {:induction false} InjectiveBound(S: set<nat>, f: map<nat, nat>, T: set<nat>)
    requires S <= f.Keys && forall p :: p in S ==> f[p] in T
    requires forall p, q :: p in S && q in S && f[p] == f[q] ==> p == q
    ensures |S| <= |T|
    decreases S
  {
    if S != {} {
      var p :| p in S;
      InjectiveBound(S - {p}, f, T - {f[p]});
    }
  }

  /** The losers to one winner sit in distinct threads, none of them the winner's. */
  lemma LosersToOne(lost: map<nat, Loss>, losers: set<nat>, w: nat, builder: nat, W: set<nat>)
    requires losers <= lost.Keys && forall p :: p in losers ==> lost[p].winner == w
    requires forall p :: p in losers ==> lost[p].thread in W && lost[p].thread != builder
    requires forall p, q :: p in losers && q in losers && lost[p] == lost[q] ==> p == q
    requires builder in W
    ensures |losers| <= |W| - 1
  {
    InjectiveBound(losers, map p | p in losers :: lost[p].thread, W - {builder});
  }

  lemma {:induction false} LossesBound(lost: map<nat, Loss>, owner: map<nat, nat>, losers: set<nat>, R: set<nat>,
                                       W: set<nat>)
    requires losers <= lost.Keys && R <= owner.Keys && forall w :: w in R ==> owner[w] in W
    requires forall p :: p in losers ==> lost[p].winner in R && lost[p].thread in W && lost[p].thread != owner[lost[p].winner]
    requires forall p, q :: p in losers && q in losers && lost[p] == lost[q] ==> p == q
    ensures |losers| + |R| <= |W| * |R|
    decreases R
  {
    if R != {} {
      var w :| w in R;
      var ofW := set p | p in losers && lost[p].winner == w;
      LosersToOne(lost, ofW, w, owner[w], W);
      LossesBound(lost, owner, losers - ofW, R - {w}, W);
      SplitSize(losers, ofW);
      SplitSize(R, {w});
      var (n, r) := (|W|, |R| - 1);
      OneMore(n, r);
    }
  }

  lemma SplitSize(a: set<nat>, b: set<nat>)
    requires b <= a
    ensures |a| == |a - b| + |b|
  {
    assert a == (a - b) + b;
  }

  lemma OneMore(w: nat, r: nat)
    ensures w * (r + 1) == w * r + w
  {
  }

  lemma InFlightPrivate<K(!new)>(H: Hasher<K>, s: State<K>, p: nat)
    requires Inv(H, s) && p in InFlight(s)
    ensures p in s.trie.heap && !Reachable(s.trie, p) && p !in s.lost
  {
    hide At, Path, WellFormed, Standing;
    var i :| 0 <= i < |s.pc| && s.pc[i].Ready? && s.pc[i].node == p;
    assert ThreadOk(H, s, i);
  }

  lemma ThreeParts(all: set<nat>, a: set<nat>, b: set<nat>, c: set<nat>)
    requires a <= all && b <= all && c <= all
    requires forall p :: p in all ==> p in a || p in b || p in c
    requires forall p :: p in b ==> p !in a
    requires forall p :: p in c ==> p !in a && p !in b
    ensures all == a + b + c && a !! b !! c
    ensures |all| == |a| + |b| + |c|
  {
    assert all == a + b + c;
    assert |a + b + c| == |a + b| + |c|;
  }

  /** Conservation: every allocated node is reachable, or lost a race, or is in flight, and only one of these. */
  lemma NodesConserved<K(!new)>(H: Hasher<K>, s: State<K>)
    requires Inv(H, s) && Accounted(s)
    ensures s.trie.heap.Keys == ReachSet(s.trie) + s.lost.Keys + InFlight(s)
    ensures ReachSet(s.trie) !! s.lost.Keys !! InFlight(s)
    ensures |s.trie.heap| == |ReachSet(s.trie)| + |s.lost| + |InFlight(s)|
  {
    hide At, Path, WellFormed, ThreadOk, InFlight, Reachable, LossesReal, LossesDistinct, WaitersUnbeaten;
    forall p | p in InFlight(s) ensures p in s.trie.heap && !Reachable(s.trie, p) && p !in s.lost {
      InFlightPrivate(H, s, p);
    }
    ThreeParts(s.trie.heap.Keys, ReachSet(s.trie), s.lost.Keys, InFlight(s));
  }

  /** With writers `W` at work, at most `|W| - 1` nodes are lost per published node. */
  lemma LeakBound<K(!new)>(H: Hasher<K>, s: State<K>, W: set<nat>)
    requires Inv(H, s) && Accounted(s)
    requires forall p :: p in s.owner ==> s.owner[p] in W
    ensures |s.lost| + |ReachSet(s.trie)| <= |W| * |ReachSet(s.trie)|
  {
    hide At, Path, WellFormed;
    LossesBound(s.lost, s.owner, s.lost.Keys, ReachSet(s.trie), W);
  }

  lemma {:induction false} RunAccounts<K(!new)>(H: Hasher<K>, threads: nat, states: seq<State<K>>, moves: seq<Move<K>>)
    requires Run(H, threads, states, moves)
    ensures Inv(H, states[|moves|]) && Accounted(states[|moves|])
    decreases |moves|
  {
    hide At, Path, WellFormed, Represents, Step, Enabled, AtomicMap.Step;
    var specs := Linearizable(H, threads, states, moves);
    if |moves| > 0 {
      var last := |moves| - 1;
      RunAccounts(H, threads, states[..last + 1], moves[..last]);
      StepAccounts(H, states[last], moves[last].thread, moves[last].action);
    }
  }

  /** A thread that has never called Put owns no node. */
  ghost predicate OnlyWriters<K>(moves: seq<Move<K>>, W: set<nat>) {
    forall j :: 0 <= j < |moves| && moves[j].action.Invoke? && moves[j].action.op.Put? ==> moves[j].thread in W
  }

  ghost predicate PutByWriters<K>(s: State<K>, W: set<nat>) {
    && (forall i :: 0 <= i < |s.pc| && !s.pc[i].Idle? && s.pc[i].op.Put? ==> i in W)
    && (forall p :: p in s.owner ==> s.owner[p] in W)
  }

  lemma {:induction false} RunByWriters<K(!new)>(H: Hasher<K>, threads: nat, states: seq<State<K>>,
                                          moves: seq<Move<K>>, W: set<nat>)
    requires Run(H, threads, states, moves) && OnlyWriters(moves, W)
    ensures PutByWriters(states[|moves|], W)
    decreases |moves|
  {
    hide At, Path;
    if |moves| > 0 {
      var last := |moves| - 1;
      RunByWriters(H, threads, states[..last + 1], moves[..last], W);
      StepByWriters(H, states[last], moves[last].thread, moves[last].action, W);
    }
  }

  lemma StepByWriters<K(!new)>(H: Hasher<K>, s: State<K>, i: nat, a: Action<K>, W: set<nat>)
    requires Enabled(s, i, a) && PutByWriters(s, W)
    requires a.Invoke? && a.op.Put? ==> i in W
    ensures PutByWriters(Step(H, s, i, a), W)
  {
  }

  /** Over every run: nodes are conserved, and losses are bounded by the writers that raced. */
  lemma LeaksOverRuns<K(!new)>(H: Hasher<K>, threads: nat, states: seq<State<K>>, moves: seq<Move<K>>, W: set<nat>)
    requires Run(H, threads, states, moves) && OnlyWriters(moves, W)
    ensures var s := states[|moves|];
      && |s.trie.heap| == |ReachSet(s.trie)| + |s.lost| + |InFlight(s)|
      && |s.lost| + |ReachSet(s.trie)| <= |W| * |ReachSet(s.trie)|
  {
    var s := states[|moves|];
    RunAccounts(H, threads, states, moves);
    RunByWriters(H, threads, states, moves, W);
    NodesConserved(H, s);
    LeakBound(H, s, W);
  }
}
