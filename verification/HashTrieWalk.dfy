/**
 ForEach of HashTrie as the source runs it beside writers: 64 frames in an array, a recursive function
 below them, and a count that every activation of that function adds to its caller's.

 Each atomic load is a step. `WalkIsIter` shows that the machine takes the steps of the unbounded iterator,
 whatever the depth, so the iterator's guarantees under concurrent writers are the call's.
 */
module HashTrieWalk {
  import opened Machine
  import opened Descent
  import opened TrieShape
  import opened HashTrie
  import opened HashTrieForEach
  import HashTrieSafety
  import AtomicMap

  const FRAMES: nat := 64

  /** A running `rgm_hash_trie_foreach_rec`: its node, loop counter and local count. */
  datatype Activation = Activation(frame: Frame, count: nat)

  /** `log` is what the callback has been shown. */
  datatype Walk<K> = Walk(top: nat, frames: seq<Frame>, calls: seq<Activation>, stop: bool, count: nat, log: seq<(K, u64)>)

  function Begin<K>(): Walk<K> {
    Walk(0, [], [], false, 0, [])
  }

  predicate Over<K>(w: Walk<K>) {
    w.stop || (w.frames == [] && w.top >= TOP_SIZE)
  }

  function TopFrame<K>(w: Walk<K>): Option<Frame> {
    if w.calls != [] then Some(w.calls[|w.calls| - 1].frame)
    else if w.frames != [] then Some(w.frames[|w.frames| - 1])
    else None
  }

  predicate CanWalk<K>(t: Trie<K>, w: Walk<K>) {
    && !Over(w)
    && w.top < |t.top|
    && (TopFrame(w).Some? ==> var p := TopFrame(w).value.node; p in t.heap && |t.heap[p].child| == 4)
  }

  /** What the activations return to the outermost call when they are all left at once. */
  function Returned(calls: seq<Activation>): nat {
    if calls == [] then 0 else calls[|calls| - 1].count + Returned(calls[..|calls| - 1])
  }

  /** A step inside the recursion. */
  function CallStep<K>(t: Trie<K>, w: Walk<K>, halt: bool): Walk<K>
    requires CanWalk(t, w) && w.calls != []
  {
    var last := |w.calls| - 1;
    var (f, n) := (w.calls[last].frame, w.calls[last].count);
    if !f.seen then
      var shown := w.log + [(t.heap[f.node].key, t.heap[f.node].value)];
      if halt then w.(log := shown, stop := true, count := w.count + Returned(w.calls), calls := [])
      else w.(log := shown, calls := w.calls[last := Activation(f.(seen := true), n)])
    else if f.next < 4 then
      var cur := t.heap[f.node].child[f.next];
      var rest := w.calls[last := Activation(f.(next := f.next + 1), n)];
      w.(calls := if cur == 0 then rest else rest + [Activation(Frame(cur, false, 0), 1)])
    else if last == 0 then
      w.(calls := [], count := w.count + n)
    else
      var caller := w.calls[last - 1];
      w.(calls := w.calls[..last][last - 1 := caller.(count := caller.count + n)])
  }

  /** A step of the loop over the array of frames. */
  function LoopStep<K>(t: Trie<K>, w: Walk<K>, halt: bool): Walk<K>
    requires CanWalk(t, w) && w.calls == []
  {
    if w.frames == [] then
      var cur := t.top[w.top];
      if cur == 0 then w.(top := w.top + 1) else w.(frames := [Frame(cur, false, 0)])
    else
      var last := |w.frames| - 1;
      var f := w.frames[last];
      if !f.seen then
        w.(frames := w.frames[last := f.(seen := true)], stop := halt, count := w.count + 1,
           log := w.log + [(t.heap[f.node].key, t.heap[f.node].value)])
      else if f.next < 4 then
        var cur := t.heap[f.node].child[f.next];
        var rest := w.frames[last := f.(next := f.next + 1)];
        if cur == 0 then w.(frames := rest)
        else if |rest| < FRAMES then w.(frames := rest + [Frame(cur, false, 0)])
        else w.(frames := rest, calls := [Activation(Frame(cur, false, 0), 1)])
      else if last == 0 then
        w.(top := w.top + 1, frames := [])
      else
        w.(frames := w.frames[..last])
  }

  function WalkStep<K>(t: Trie<K>, w: Walk<K>, halt: bool): Walk<K>
    requires CanWalk(t, w)
  {
    if w.calls != [] then CallStep(t, w, halt) else LoopStep(t, w, halt)
  }

  // -----------------------------------------------------------------------------
  // The same steps as the iterator with one unbounded stack.

  function Frames(calls: seq<Activation>): (frames: seq<Frame>)
    ensures |frames| == |calls| && forall i :: 0 <= i < |calls| ==> frames[i] == calls[i].frame
  {
    seq(|calls|, i requires 0 <= i < |calls| => calls[i].frame)
  }

  /** The activation on top has counted a node that it has not shown yet. */
  function Ahead(calls: seq<Activation>): nat {
    if calls != [] && !calls[|calls| - 1].frame.seen then 1 else 0
  }

  ghost predicate Mirrors<K(!new)>(w: Walk<K>, it: Iter) {
    && it.top == w.top && it.stop == w.stop && |it.visited| == |w.log|
    && |w.frames| <= FRAMES && (w.calls != [] ==> |w.frames| == FRAMES)
    && (forall i :: 0 <= i < |w.calls| - 1 ==> w.calls[i].frame.seen)
    && w.count + Returned(w.calls) == |w.log| + Ahead(w.calls)
    && if w.stop then w.calls == [] else it.stack == w.frames + Frames(w.calls)
  }

  lemma CountSame(calls: seq<Activation>, f: Frame)
    requires calls != []
    ensures var last := |calls| - 1; Returned(calls[last := Activation(f, calls[last].count)]) == Returned(calls)
  {
    var last := |calls| - 1;
    assert calls[last := Activation(f, calls[last].count)][..last] == calls[..last];
  }

  lemma CountPush(calls: seq<Activation>, x: Activation)
    ensures Returned(calls + [x]) == Returned(calls) + x.count
  {
    assert (calls + [x])[..|calls|] == calls;
  }

  lemma CountPop(calls: seq<Activation>)
    requires |calls| > 1
    ensures var last := |calls| - 1; var caller := calls[last - 1];
      Returned(calls[..last][last - 1 := caller.(count := caller.count + calls[last].count)]) == Returned(calls)
  {
    var last := |calls| - 1;
    var caller := calls[last - 1];
    var left := calls[..last];
    assert left[last - 1 := caller.(count := caller.count + calls[last].count)][..last - 1] == left[..last - 1];
  }

  /** The recursion shows its node. */
  lemma CallShows<K(!new)>(t: Trie<K>, w: Walk<K>, it: Iter, halt: bool)
    requires Mirrors(w, it) && CanWalk(t, w) && w.calls != [] && !w.calls[|w.calls| - 1].frame.seen
    ensures CanStep(t, it) && Mirrors(CallStep(t, w, halt), IterStep(t, it, halt))
  {
    hide Chosen, Returned;
    var last := |w.calls| - 1;
    var f := w.calls[last].frame;
    assert it.stack[|it.stack| - 1] == f;
    if halt {
      NothingReturned();
    } else {
      CountSame(w.calls, f.(seen := true));
      assert IterStep(t, it, halt).stack == w.frames + Frames(CallStep(t, w, halt).calls);
    }
  }

  lemma NothingReturned()
    ensures Returned([]) == 0
  {
  }

  /** The recursion looks at a child. */
  lemma CallDescends<K(!new)>(t: Trie<K>, w: Walk<K>, it: Iter, halt: bool)
    requires Mirrors(w, it) && CanWalk(t, w) && w.calls != []
    requires w.calls[|w.calls| - 1].frame.seen && w.calls[|w.calls| - 1].frame.next < 4
    ensures CanStep(t, it) && Mirrors(CallStep(t, w, halt), IterStep(t, it, halt))
  {
    hide Chosen, Returned;
    var last := |w.calls| - 1;
    var f := w.calls[last].frame;
    assert it.stack[|it.stack| - 1] == f;
    var after := f.(next := f.next + 1);
    CountSame(w.calls, after);
    CountPush(w.calls[last := Activation(after, w.calls[last].count)], Activation(Frame(t.heap[f.node].child[f.next], false, 0), 1));
    assert IterStep(t, it, halt).stack == w.frames + Frames(CallStep(t, w, halt).calls);
  }

  /** The recursion returns. */
  lemma CallReturns<K(!new)>(t: Trie<K>, w: Walk<K>, it: Iter, halt: bool)
    requires Mirrors(w, it) && CanWalk(t, w) && w.calls != []
    requires w.calls[|w.calls| - 1].frame.seen && w.calls[|w.calls| - 1].frame.next >= 4
    ensures CanStep(t, it) && Mirrors(CallStep(t, w, halt), IterStep(t, it, halt))
  {
    hide Chosen;
    var last := |w.calls| - 1;
    var f := w.calls[last].frame;
    assert it.stack[|it.stack| - 1] == f;
    if last > 0 {
      CountPop(w.calls);
      hide Returned;
    } else {
      assert w.calls[..last] == [];
    }
    assert IterStep(t, it, halt).stack == w.frames + Frames(CallStep(t, w, halt).calls);
  }

  lemma LoopMirrors<K(!new)>(t: Trie<K>, w: Walk<K>, it: Iter, halt: bool)
    requires Mirrors(w, it) && CanWalk(t, w) && w.calls == []
    ensures CanStep(t, it) && Mirrors(LoopStep(t, w, halt), IterStep(t, it, halt))
  {
    hide Chosen;
    assert it.stack == w.frames;
  }

  /** Every step of the bounded walk is a step of the iterator, at any depth. */
  lemma WalkIsIter<K(!new)>(t: Trie<K>, w: Walk<K>, it: Iter, halt: bool)
    requires Mirrors(w, it) && CanWalk(t, w)
    ensures CanStep(t, it) && Mirrors(WalkStep(t, w, halt), IterStep(t, it, halt))
    ensures var (w', it') := (WalkStep(t, w, halt), IterStep(t, it, halt));
      || (w'.log == w.log && it'.visited == it.visited)
      || (exists p :: p in t.heap && it'.visited == it.visited + [p] && w'.log == w.log + [(t.heap[p].key, t.heap[p].value)])
  {
    hide Chosen;
    if w.calls != [] {
      var f := w.calls[|w.calls| - 1].frame;
      assert it.stack[|it.stack| - 1] == f;
      if !f.seen { CallShows(t, w, it, halt); }
      else if f.next < 4 { CallDescends(t, w, it, halt); }
      else { CallReturns(t, w, it, halt); }
    } else {
      LoopMirrors(t, w, it, halt);
    }
  }

  /** A walk that is not over can always take its next step. */
  lemma WalkGoesOn<K(!new)>(H: Hasher<K>, t0: Trie<K>, t: Trie<K>, w: Walk<K>, it: Iter)
    requires Mirrors(w, it) && IterInv(H, t0, t, it) && !Over(w)
    ensures CanWalk(t, w)
  {
    hide Chosen, TrailOk, WellFormed, Extends, StackOk;
    StackTopOk(H, t0, t, it);
    if w.calls != [] { assert it.stack[|it.stack| - 1] == w.calls[|w.calls| - 1].frame; }
  }

  // -----------------------------------------------------------------------------
  // A whole call beside writers.

  ghost predicate WalkTick<K(!new)>(H: Hasher<K>, s: State<K>, w: Walk<K>, tick: Tick<K>, s': State<K>, w': Walk<K>) {
    match tick
    case Writer(i, a) => Enabled(s, i, a) && s' == Step(H, s, i, a) && w' == w
    case Iterate(halt) => s' == s && CanWalk(s.trie, w) && w' == WalkStep(s.trie, w, halt)
  }

  /** A call of ForEach that begins in `states[0]`, with any interleaving of other threads' steps. */
  ghost predicate WalkCall<K(!new)>(H: Hasher<K>, states: seq<State<K>>, walks: seq<Walk<K>>, ticks: seq<Tick<K>>) {
    && |states| == |walks| == |ticks| + 1
    && Inv(H, states[0]) && walks[0] == Begin()
    && forall j :: 0 <= j < |ticks| ==> WalkTick(H, states[j], walks[j], ticks[j], states[j + 1], walks[j + 1])
  }

  ghost predicate AllMirror<K(!new)>(walks: seq<Walk<K>>, iters: seq<Iter>) {
    |walks| == |iters| && forall j :: 0 <= j < |walks| ==> Mirrors(walks[j], iters[j])
  }

  lemma BeginMirrors<K(!new)>(w: Walk<K>)
    requires w == Begin()
    ensures Mirrors(w, FRESH)
  {
  }

  /** The call is one of the unbounded iterator, beside the same writers. */
  lemma {:induction false} CallIsIter<K(!new)>(H: Hasher<K>, states: seq<State<K>>, walks: seq<Walk<K>>, ticks: seq<Tick<K>>)
    returns (iters: seq<Iter>)
    requires WalkCall(H, states, walks, ticks)
    ensures Call(H, states, iters, ticks) && AllMirror(walks, iters)
    decreases |ticks|
  {
    hide Inv, Step, Enabled, Mirrors, CanWalk, WalkStep, CanStep, IterStep, Begin;
    if |ticks| == 0 {
      BeginMirrors(walks[0]);
      iters := [FRESH];
    } else {
      var n := |ticks| - 1;
      var front := CallIsIter(H, states[..n + 1], walks[..n + 1], ticks[..n]);
      assert Mirrors(walks[..n + 1][n], front[n]);
      assert WalkTick(H, states[n], walks[n], ticks[n], states[n + 1], walks[n + 1]);
      if ticks[n].Iterate? {
        WalkIsIter(states[n].trie, walks[n], front[n], ticks[n].halt);
        iters := front + [IterStep(states[n].trie, front[n], ticks[n].halt)];
      } else {
        iters := front + [front[n]];
      }
      forall j | 0 <= j < |ticks| ensures TickOk(H, states[j], iters[j], ticks[j], states[j + 1], iters[j + 1]) {
        if j < n { assert TickOk(H, states[..n + 1][j], front[j], ticks[..n][j], states[..n + 1][j + 1], front[j + 1]); }
      }
    }
  }

  /** `e` is an entry of the map that `s` represents. */
  ghost predicate Entry<K(!new)>(s: State<K>, e: (K, u64)) {
    HasEntry(s.trie, e.0, e.1)
  }

  /** In terms of the map that the trie stands for at that moment. */
  lemma EntryInMap<K(!new)>(s: State<K>, e: (K, u64), m: map<K, u64>)
    requires Represents(s.trie, m)
    ensures Entry(s, e) <==> e.0 in m && m[e.0] == e.1
    ensures HasKey(s.trie, e.0) <==> e.0 in m
  {
    if e.0 in m {
      var p :| Holds(s.trie, e.0, p);
      HeldValue(s.trie, e.0, p, m);
    }
  }

  ghost predicate LogOk<K(!new)>(states: seq<State<K>>, n: nat, log: seq<(K, u64)>, visited: seq<nat>)
    requires n < |states|
  {
    && |log| == |visited|
    && forall i :: 0 <= i < |log| ==>
         && visited[i] in states[n].trie.heap && KeyOf(states[n].trie, visited[i]) == log[i].0
         && exists j: nat :: j <= n && Entry(states[j], log[i])
  }

  lemma LogStays<K(!new)>(states: seq<State<K>>, n: nat, log: seq<(K, u64)>, visited: seq<nat>)
    requires n + 1 < |states| && LogOk(states, n, log, visited) && Extends(states[n].trie, states[n + 1].trie)
    ensures LogOk(states, n + 1, log, visited)
  {
    hide At, Entry;
    forall i | 0 <= i < |log| ensures exists j: nat :: j <= n + 1 && Entry(states[j], log[i]) {
      var j: nat :| j <= n && Entry(states[j], log[i]);
      assert j <= n + 1;
    }
  }

  lemma LogGrows<K(!new)>(states: seq<State<K>>, n: nat, log: seq<(K, u64)>, visited: seq<nat>, p: nat)
    requires n < |states| && LogOk(states, n, log, visited) && p in states[n].trie.heap && Reachable(states[n].trie, p)
    ensures LogOk(states, n, log + [(states[n].trie.heap[p].key, states[n].trie.heap[p].value)], visited + [p])
  {
    hide Reachable;
    var e := (states[n].trie.heap[p].key, states[n].trie.heap[p].value);
    assert Holds(states[n].trie, e.0, p);
    assert Entry(states[n], e);
  }

  lemma LastVisited<K(!new)>(H: Hasher<K>, t0: Trie<K>, t: Trie<K>, it: Iter)
    requires IterInv(H, t0, t, it)
    ensures WellFormed(H, t) && forall i :: 0 <= i < |it.visited| ==> Reachable(t, it.visited[i])
  {
    hide WellFormed;
    VisitedDistinct(H, t0, t, it);
  }

  lemma SameExtends<K(!new)>(t: Trie<K>)
    ensures Extends(t, t)
  {
  }

  lemma {:induction false} LogHolds<K(!new)>(H: Hasher<K>, states: seq<State<K>>, walks: seq<Walk<K>>, iters: seq<Iter>,
                                      ticks: seq<Tick<K>>, m: map<K, u64>, n: nat)
    requires WalkCall(H, states, walks, ticks) && Call(H, states, iters, ticks) && AllMirror(walks, iters)
    requires Represents(states[0].trie, m) && n <= |ticks|
    ensures LogOk(states, n, walks[n].log, iters[n].visited)
    decreases n
  {
    hide Inv, Step, Enabled, Mirrors, CanWalk, WalkStep, CanStep, IterStep, IterInv, LogOk, Represents, Extends, WellFormed;
    if n == 0 {
      EmptyLog(states, walks[0], iters[0]);
    } else {
      var k := n - 1;
      LogHolds(H, states, walks, iters, ticks, m, k);
      var m' := CallKeepsInv(H, states[..k + 1], iters[..k + 1], ticks[..k], m);
      LastVisited(H, states[0].trie, states[k].trie, iters[k]);
      assert WalkTick(H, states[k], walks[k], ticks[k], states[k + 1], walks[k + 1]);
      assert TickOk(H, states[k], iters[k], ticks[k], states[k + 1], iters[k + 1]);
      match ticks[k]
      case Iterate(halt) =>
        assert Mirrors(walks[k], iters[k]);
        WalkIsIter(states[k].trie, walks[k], iters[k], halt);
        SameExtends(states[k].trie);
        LogStays(states, k, walks[k].log, iters[k].visited);
        if iters[k + 1].visited != iters[k].visited {
          var p :| p in states[k].trie.heap && iters[k + 1].visited == iters[k].visited + [p]
                   && walks[k + 1].log == walks[k].log + [(states[k].trie.heap[p].key, states[k].trie.heap[p].value)];
          IterKeepsInv(H, states[0].trie, states[k].trie, iters[k], halt);
          LastVisited(H, states[0].trie, states[k + 1].trie, iters[k + 1]);
          assert iters[k + 1].visited[|iters[k].visited|] == p;
          LogGrows(states, k + 1, walks[k].log, iters[k].visited, p);
        }
      case Writer(i, a) =>
        HashTrieSafety.StepWritesOnce(H, states[k], i, a);
        HashTrieSafety.NoNullNode(H, states[k].trie);
        HashTrieSafety.WriteOnceExtends(states[k].trie, states[k + 1].trie);
        LogStays(states, k, walks[k].log, iters[k].visited);
    }
  }

  lemma EmptyLog<K(!new)>(states: seq<State<K>>, w: Walk<K>, it: Iter)
    requires |states| > 0 && w == Begin() && it == FRESH
    ensures LogOk(states, 0, w.log, it.visited)
  {
  }

  /** ForEach beside writers that publish at any step, at any depth: no key is shown twice; what is shown is
      an entry the map had at some moment of the call, whose key is still there at the end; the count is the
      number of entries shown; and a call that is not stopped shows every key that was there when it began. */
  lemma ForEachUnderWriters<K(!new)>(H: Hasher<K>, threads: nat, before: seq<State<K>>, moves: seq<Move<K>>,
                              states: seq<State<K>>, walks: seq<Walk<K>>, ticks: seq<Tick<K>>)
    requires Run(H, threads, before, moves) && WalkCall(H, states, walks, ticks) && states[0] == before[|moves|]
    ensures var (w, last) := (walks[|ticks|], states[|ticks|]);
      && (forall i, j :: 0 <= i < j < |w.log| ==> w.log[i].0 != w.log[j].0)
      && (forall i :: 0 <= i < |w.log| ==> HasKey(last.trie, w.log[i].0))
      && (forall i :: 0 <= i < |w.log| ==> exists j: nat :: j < |states| && Entry(states[j], w.log[i]))
      && (Over(w) ==> w.count == |w.log|)
      && (Over(w) && !w.stop ==>
            forall e :: Entry(states[0], e) ==> exists i :: 0 <= i < |w.log| && w.log[i].0 == e.0)
  {
    hide Run, Step, Enabled, CanWalk, WalkStep, CanStep, IterStep, Inv, Extends, Represents, WellFormed, Mirrors, Reachable,
         WalkTick, TickOk, AtomicMap.Step, LogOk, IterInv, Over, Finished, Entry, HasKey, Call;
    var m := StartMap(H, threads, before, moves);
    var iters := CallIsIter(H, states, walks, ticks);
    ForEachSnapshot(H, threads, before, moves, states, iters, ticks);
    LogHolds(H, states, walks, iters, ticks, m, |ticks|);
    var m' := CallKeepsInv(H, states, iters, ticks, m);
    var (w, it, t) := (walks[|ticks|], iters[|ticks|], states[|ticks|].trie);
    assert Mirrors(w, it);
    IterParts(H, states[0].trie, t, it);
    LogKeys(H, t, states, |ticks|, w.log, it.visited);
    if Over(w) {
      OverMirrors(w, it);
      if !w.stop {
        forall e | Entry(states[0], e) ensures exists i :: 0 <= i < |w.log| && w.log[i].0 == e.0 {
          AllShown(states[0].trie, states, |ticks|, w.log, it.visited, e);
        }
      }
    }
  }

  lemma IterParts<K(!new)>(H: Hasher<K>, t0: Trie<K>, t: Trie<K>, it: Iter)
    requires IterInv(H, t0, t, it)
    ensures WellFormed(H, t) && Extends(t0, t)
  {
    hide WellFormed, Extends;
  }

  lemma StartMap<K(!new)>(H: Hasher<K>, threads: nat, before: seq<State<K>>, moves: seq<Move<K>>)
    returns (m: map<K, u64>)
    requires Run(H, threads, before, moves)
    ensures Represents(before[|moves|].trie, m)
  {
    hide Represents, Inv, Step, Enabled, AtomicMap.Step;
    var specs := Linearizable(H, threads, before, moves);
    m := specs[|moves|].m;
  }

  lemma LogKeys<K(!new)>(H: Hasher<K>, t: Trie<K>, states: seq<State<K>>, n: nat, log: seq<(K, u64)>, visited: seq<nat>)
    requires n < |states| && t == states[n].trie && LogOk(states, n, log, visited) && WellFormed(H, t)
    requires forall i :: 0 <= i < |visited| ==> Reachable(t, visited[i])
    requires forall i, j :: 0 <= i < j < |visited| ==> visited[i] != visited[j]
    ensures forall i, j :: 0 <= i < j < |log| ==> log[i].0 != log[j].0
    ensures forall i :: 0 <= i < |log| ==> HasKey(t, log[i].0)
    ensures forall i :: 0 <= i < |log| ==> exists j: nat :: j <= n && Entry(states[j], log[i])
  {
    hide WellFormed, Reachable, Entry;
    forall i, j | 0 <= i < j < |log| ensures log[i].0 != log[j].0 {
      SameKeySameNode(H, t, visited[i], visited[j]);
    }
    forall i | 0 <= i < |log| ensures HasKey(t, log[i].0) {
      assert Holds(t, log[i].0, visited[i]);
    }
    forall i | 0 <= i < |log| ensures exists j: nat :: j <= n && Entry(states[j], log[i]) {
      var j: nat :| j <= n && Entry(states[j], log[i]);
    }
  }

  lemma OverMirrors<K(!new)>(w: Walk<K>, it: Iter)
    requires Mirrors(w, it) && Over(w)
    ensures w.count == |w.log| && it.stop == w.stop && Finished(it)
  {
  }

  lemma AllShown<K(!new)>(t0: Trie<K>, states: seq<State<K>>, n: nat, log: seq<(K, u64)>, visited: seq<nat>, e: (K, u64))
    requires 0 < |states| && n < |states| && t0 == states[0].trie && LogOk(states, n, log, visited)
    requires Extends(t0, states[n].trie) && Entry(states[0], e)
    requires forall p :: Reachable(t0, p) ==> p in visited
    ensures exists i :: 0 <= i < |log| && log[i].0 == e.0
  {
    hide At, Reachable;
    var p :| Holds(t0, e.0, p) && t0.heap[p].value == e.1;
    var i :| 0 <= i < |visited| && visited[i] == p;
    assert log[i].0 == e.0;
  }

  // -----------------------------------------------------------------------------
  // Stopping early.

  lemma StepStops<K(!new)>(t: Trie<K>, w: Walk<K>, halt: bool)
    requires CanWalk(t, w)
    ensures WalkStep(t, w, halt).stop <==> halt && |WalkStep(t, w, halt).log| == |w.log| + 1
  {
    hide Returned;
  }

  /** In tick `j` the callback is shown an entry and asks to stop. */
  ghost predicate Halts<K(!new)>(walks: seq<Walk<K>>, ticks: seq<Tick<K>>, j: nat)
    requires |walks| == |ticks| + 1
  {
    j < |ticks| && ticks[j].Iterate? && ticks[j].halt && |walks[j + 1].log| == |walks[j].log| + 1
  }

  /** A walk stops exactly when the callback asks for it, and the entry it was shown then is the last. */
  lemma {:induction false} StopsAtOnce<K(!new)>(H: Hasher<K>, states: seq<State<K>>, walks: seq<Walk<K>>, ticks: seq<Tick<K>>, n: nat)
    requires WalkCall(H, states, walks, ticks) && n <= |ticks|
    ensures walks[n].stop <==> exists j: nat :: j < n && Halts(walks, ticks, j)
    ensures forall j: nat :: j < n && Halts(walks, ticks, j) ==> walks[n] == walks[j + 1]
    decreases n
  {
    hide Step, Enabled, WalkStep, CanWalk, Inv;
    if n > 0 {
      var k := n - 1;
      StopsAtOnce(H, states, walks, ticks, k);
      assert WalkTick(H, states[k], walks[k], ticks[k], states[k + 1], walks[k + 1]);
      if ticks[k].Iterate? {
        StepStops(states[k].trie, walks[k], ticks[k].halt);
        NotOver(states[k].trie, walks[k]);
      }
      if walks[n].stop {
        if walks[k].stop {
          var j: nat :| j < k && Halts(walks, ticks, j);
        } else {
          assert Halts(walks, ticks, k);
        }
      }
    }
  }

  lemma NotOver<K(!new)>(t: Trie<K>, w: Walk<K>)
    requires CanWalk(t, w)
    ensures !w.stop
  {
  }
}
