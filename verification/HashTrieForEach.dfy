/**
 Iterating over a trie while other threads keep writing.

 The iterator is a depth-first walk with a stack of frames; each slot load is one atomic step and any
 number of protocol steps may happen in between. One stack of any depth stands for the source's array of
 64 frames and its recursion; HashTrieWalk has those, and shows that they take the same steps.
 */
module HashTrieForEach {
  import opened Machine
  import opened Descent
  import opened TrieShape
  import opened PathOrder
  import opened HashTrie
  import HashTrieSafety
  import AtomicMap

  datatype Frame = Frame(node: nat, seen: bool, next: nat)

  /** `visited` is the sequence of nodes the callback has been given. `trail` records the path of each;
      no step reads it. */
  datatype Iter = Iter(top: nat, stack: seq<Frame>, stop: bool, visited: seq<nat>, trail: seq<seq<nat>>)

  const FRESH: Iter := Iter(0, [], false, [], [])

  predicate Finished(it: Iter) {
    it.stop || (it.stack == [] && it.top >= TOP_SIZE)
  }

  predicate CanStep<K>(t: Trie<K>, it: Iter) {
    && !Finished(it)
    && it.top < |t.top|
    && (it.stack != [] ==>
          var f := it.stack[|it.stack| - 1]; f.node in t.heap && |t.heap[f.node].child| == 4)
  }

  /** The slot numbers chosen on the way to the top frame's node. */
  function Chosen(top: nat, stack: seq<Frame>): (path: seq<nat>)
    ensures path != []
  {
    if |stack| <= 1 then [top]
    else
      var below := stack[|stack| - 2];
      Chosen(top, stack[..|stack| - 1]) + [if below.next > 0 then below.next - 1 else 0]
  }

  /** One step of the iterator; `halt` is the callback's answer if this step calls it. */
  function IterStep<K>(t: Trie<K>, it: Iter, halt: bool): Iter
    requires CanStep(t, it)
  {
    if it.stack == [] then
      var cur := t.top[it.top];
      if cur == 0 then it.(top := it.top + 1) else it.(stack := [Frame(cur, false, 0)])
    else
      var last := |it.stack| - 1;
      var f := it.stack[last];
      if !f.seen then
        it.(stack := it.stack[last := f.(seen := true)], stop := halt,
            visited := it.visited + [f.node], trail := it.trail + [Chosen(it.top, it.stack)])
      else if f.next < 4 then
        var cur := t.heap[f.node].child[f.next];
        var rest := it.stack[last := f.(next := f.next + 1)];
        it.(stack := if cur == 0 then rest else rest + [Frame(cur, false, 0)])
      else if last == 0 then
        it.(top := it.top + 1, stack := [])
      else
        it.(stack := it.stack[..last])
  }

  /** Everything before the cursor has been dealt with. */
  function Cursor(it: Iter): seq<nat> {
    if it.stack == [] then [it.top]
    else
      var f := it.stack[|it.stack| - 1];
      Chosen(it.top, it.stack) + if f.seen then [f.next] else []
  }

  ghost predicate FrameOk<K>(t: Trie<K>, top: nat, stack: seq<Frame>, d: nat) {
    d < |stack| ==>
      && At(t, Chosen(top, stack[..d + 1])) == stack[d].node != 0
      && stack[d].next <= 4
      && (d + 1 < |stack| ==> stack[d].seen && 1 <= stack[d].next)
      && (d + 1 == |stack| && !stack[d].seen ==> stack[d].next == 0)
  }

  ghost predicate StackOk<K>(t: Trie<K>, top: nat, stack: seq<Frame>) {
    forall d :: 0 <= d < |stack| ==> FrameOk(t, top, stack, d)
  }

  /** The trail is in strict pre-order, lies before the cursor, and covers all of `t0` that does. */
  ghost predicate TrailOk<K>(t0: Trie<K>, t: Trie<K>, it: Iter, cursor: seq<nat>) {
    && |it.trail| == |it.visited|
    && (forall i :: 0 <= i < |it.trail| ==> At(t, it.trail[i]) == it.visited[i] != 0 && Before(it.trail[i], cursor))
    && (forall i, j :: 0 <= i < j < |it.trail| ==> Before(it.trail[i], it.trail[j]))
    && (forall path :: At(t0, path) != 0 && Before(path, cursor) ==> path in it.trail)
  }

  ghost predicate IterInv<K(!new)>(H: Hasher<K>, t0: Trie<K>, t: Trie<K>, it: Iter) {
    && WellFormed(H, t)
    && Extends(t0, t)
    && it.top <= TOP_SIZE && (it.stack != [] ==> it.top < TOP_SIZE)
    && StackOk(t, it.top, it.stack)
    && TrailOk(t0, t, it, Cursor(it))
  }

  lemma FreshInv<K(!new)>(H: Hasher<K>, t: Trie<K>)
    requires WellFormed(H, t)
    ensures IterInv(H, t, t, FRESH)
  {
    forall path | At(t, path) != 0 ensures !Before(path, [0]) {
    }
  }

  /** Writers do not disturb the iterator. */
  lemma WritersKeepIter<K(!new)>(H: Hasher<K>, t0: Trie<K>, t: Trie<K>, t': Trie<K>, it: Iter)
    requires IterInv(H, t0, t, it) && WellFormed(H, t') && Extends(t, t')
    ensures IterInv(H, t0, t', it)
  {
    hide At, Path, WellFormed;
    HashTrieSafety.ExtendsTransitive(t0, t, t');
    assert TrailOk(t0, t', it, Cursor(it));
    forall d | 0 <= d < |it.stack| ensures FrameOk(t', it.top, it.stack, d) {
      assert FrameOk(t, it.top, it.stack, d);
    }
  }

  lemma ChildNumbers<K(!new)>(H: Hasher<K>, t: Trie<K>, path: seq<nat>, i: nat)
    requires WellFormed(H, t) && At(t, path) != 0 && i < |path|
    ensures path[i] < if i == 0 then TOP_SIZE else 4
  {
    hide At, Path;
    PathInRange(H, KeyOf(t, At(t, path)), |path|, i);
  }

  /** Moving the cursor without visiting: no path of the trie falls behind it. */
  lemma CursorMoves<K(!new)>(t0: Trie<K>, t: Trie<K>, it: Iter, c: seq<nat>, it': Iter, c': seq<nat>)
    requires TrailOk(t0, t, it, c) && it'.trail == it.trail && it'.visited == it.visited
    requires forall path :: At(t, path) != 0 ==> (Before(path, c') <==> Before(path, c))
    requires Extends(t0, t)
    ensures TrailOk(t0, t, it', c')
  {
    hide At;
  }

  /** Below an empty slot there is nothing to skip. */
  lemma NothingBelow<K>(t: Trie<K>, slot: seq<nat>, path: seq<nat>)
    requires 0 !in t.heap && |slot| >= 1 && At(t, slot) == 0 && slot <= path
    ensures At(t, path) == 0
  {
    hide At;
    if At(t, path) != 0 {
      assert path[..|slot|] == slot;
      PrefixClosed(t, path, |slot|);
    }
  }

  /** Moving past an empty slot. */
  lemma SkipEmpty<K>(t: Trie<K>, p: seq<nat>, c: nat)
    requires 0 !in t.heap && At(t, p + [c]) == 0
    ensures forall path :: At(t, path) != 0 ==> (Before(path, p + [c + 1]) <==> Before(path, p + [c]))
  {
    hide At;
    forall path | At(t, path) != 0 ensures Before(path, p + [c + 1]) <==> Before(path, p + [c]) {
      NextSibling(p, c, path);
      if p + [c] <= path { NothingBelow(t, p + [c], path); }
    }
  }

  /** Leaving a node whose four children are done. */
  lemma LeaveNode<K(!new)>(H: Hasher<K>, t: Trie<K>, p: seq<nat>, d: nat)
    requires WellFormed(H, t)
    ensures forall path :: At(t, path) != 0 ==> (Before(path, p + [d + 1]) <==> Before(path, p + [d] + [4]))
  {
    hide At, WellFormed;
    forall path | At(t, path) != 0 ensures Before(path, p + [d + 1]) <==> Before(path, p + [d] + [4]) {
      if |path| > |p| + 1 { ChildNumbers(H, t, path, |p| + 1); }
      NextUp(p, d, path);
    }
  }

  /** The path to a node does not depend on the node's own frame. */
  lemma SameBelow(top: nat, a: seq<Frame>, b: seq<Frame>)
    requires |a| == |b| > 0 && a[..|a| - 1] == b[..|b| - 1]
    ensures Chosen(top, a) == Chosen(top, b)
  {
    if |a| > 1 {
      assert a[|a| - 2] == a[..|a| - 1][|a| - 2];
      assert b[|b| - 2] == b[..|b| - 1][|b| - 2];
    }
  }

  lemma FrameSame<K>(t: Trie<K>, top: nat, a: seq<Frame>, b: seq<Frame>, d: nat)
    requires d < |a| && d < |b| && FrameOk(t, top, a, d) && a[..d] == b[..d] && b[d].node == a[d].node
    requires b[d].next <= 4 && (d + 1 < |b| ==> b[d].seen && 1 <= b[d].next)
    requires d + 1 == |b| && !b[d].seen ==> b[d].next == 0
    ensures FrameOk(t, top, b, d)
  {
    hide At;
    assert a[..d + 1][..d] == a[..d] && b[..d + 1][..d] == b[..d];
    SameBelow(top, a[..d + 1], b[..d + 1]);
  }

  /** Replacing the top frame's counters keeps the stack in order. */
  lemma TopFrameChange<K>(t: Trie<K>, top: nat, a: seq<Frame>, b: seq<Frame>)
    requires StackOk(t, top, a) && |a| == |b| > 0 && a[..|a| - 1] == b[..|b| - 1]
    requires b[|b| - 1].node == a[|a| - 1].node && b[|b| - 1].next <= 4 && b[|b| - 1].seen
    ensures StackOk(t, top, b)
  {
    hide At, FrameOk;
    forall d | 0 <= d < |b| ensures FrameOk(t, top, b, d) {
      FrameKept(t, top, a, b, d);
    }
  }

  lemma FrameKept<K>(t: Trie<K>, top: nat, a: seq<Frame>, b: seq<Frame>, d: nat)
    requires StackOk(t, top, a) && d < |a| == |b| && a[..|a| - 1] == b[..|b| - 1]
    requires b[|b| - 1].node == a[|a| - 1].node && b[|b| - 1].next <= 4 && b[|b| - 1].seen
    ensures FrameOk(t, top, b, d)
  {
    hide At;
    assert FrameOk(t, top, a, d);
    assert a[..|a| - 1][..d] == a[..d] && b[..|b| - 1][..d] == b[..d];
    if d + 1 < |a| { assert a[d] == a[..|a| - 1][d] == b[..|b| - 1][d] == b[d]; }
    FrameSame(t, top, a, b, d);
  }

  lemma TopStep<K(!new)>(H: Hasher<K>, t0: Trie<K>, t: Trie<K>, it: Iter, halt: bool)
    requires IterInv(H, t0, t, it) && CanStep(t, it) && it.stack == []
    ensures IterInv(H, t0, t, IterStep(t, it, halt))
  {
    hide At, WellFormed;
    var it' := IterStep(t, it, halt);
    AtTop(t, it.top);
    if t.top[it.top] == 0 {
      assert [] + [it.top] == [it.top] && [] + [it.top + 1] == [it.top + 1];
      SkipEmpty(t, [], it.top) by { HashTrieSafety.NoNullNode(H, t); }
    } else {
      assert it'.stack[..1] == it'.stack;
      assert FrameOk(t, it.top, it'.stack, 0);
      assert Cursor(it') == [it.top] + [] == Cursor(it);
    }
    CursorMoves(t0, t, it, Cursor(it), it', Cursor(it'));
  }

  lemma AtTop<K>(t: Trie<K>, i: nat)
    requires i < |t.top|
    ensures At(t, [i]) == t.top[i]
  {
  }

  lemma VisitStep<K(!new)>(H: Hasher<K>, t0: Trie<K>, t: Trie<K>, it: Iter, halt: bool)
    requires IterInv(H, t0, t, it) && CanStep(t, it) && it.stack != [] && !it.stack[|it.stack| - 1].seen
    ensures IterInv(H, t0, t, IterStep(t, it, halt))
  {
    hide At, WellFormed;
    var it' := IterStep(t, it, halt);
    var last := |it.stack| - 1;
    var p := Chosen(it.top, it.stack);
    SameBelow(it.top, it.stack, it'.stack);
    assert it.stack[..last + 1] == it.stack;
    assert FrameOk(t, it.top, it.stack, last);
    TopFrameChange(t, it.top, it.stack, it'.stack);
    assert Cursor(it) == p + [] == p && Cursor(it') == p + [0];
    VisitTrail(t0, t, it, p, it');
  }

  lemma VisitTrail<K(!new)>(t0: Trie<K>, t: Trie<K>, it: Iter, p: seq<nat>, it': Iter)
    requires TrailOk(t0, t, it, p) && it'.trail == it.trail + [p] && it'.visited == it.visited + [At(t, p)]
    requires At(t, p) != 0
    ensures TrailOk(t0, t, it', p + [0])
  {
    hide At;
    forall a ensures Before(a, p + [0]) <==> Before(a, p) || a == p {
      NextFirstChild(p, a);
    }
  }

  /** The top frame's counter after a child has been looked at. */
  function Advanced(stack: seq<Frame>): seq<Frame>
    requires stack != []
  {
    var last := |stack| - 1;
    stack[last := stack[last].(next := stack[last].next + 1)]
  }

  lemma AdvancedOk<K>(t: Trie<K>, top: nat, stack: seq<Frame>)
    requires stack != [] && StackOk(t, top, stack) && stack[|stack| - 1].seen && stack[|stack| - 1].next < 4
    ensures StackOk(t, top, Advanced(stack)) && Chosen(top, Advanced(stack)) == Chosen(top, stack)
    ensures At(t, Chosen(top, stack)) == stack[|stack| - 1].node
  {
    hide At, Chosen;
    assert stack[..|stack|] == stack;
    assert FrameOk(t, top, stack, |stack| - 1);
    SameBelow(top, stack, Advanced(stack));
    TopFrameChange(t, top, stack, Advanced(stack));
  }

  /** An empty child slot is passed. */
  lemma ChildSkip<K(!new)>(H: Hasher<K>, t0: Trie<K>, t: Trie<K>, it: Iter, halt: bool)
    requires IterInv(H, t0, t, it) && CanStep(t, it) && it.stack != []
    requires var f := it.stack[|it.stack| - 1]; f.seen && f.next < 4 && t.heap[f.node].child[f.next] == 0
    ensures IterInv(H, t0, t, IterStep(t, it, halt))
  {
    hide At, WellFormed, TrailOk, Extends, StackOk, Chosen;
    var it' := IterStep(t, it, halt);
    var f := it.stack[|it.stack| - 1];
    var p := Chosen(it.top, it.stack);
    AdvancedOk(t, it.top, it.stack);
    AtExtend(t, p, f.next);
    SkipEmpty(t, p, f.next) by { HashTrieSafety.NoNullNode(H, t); }
    assert Cursor(it) == p + [f.next] && Cursor(it') == p + [f.next + 1];
    CursorMoves(t0, t, it, Cursor(it), it', Cursor(it'));
  }

  /** A child is entered: the cursor stays where it is. */
  lemma ChildPush<K(!new)>(H: Hasher<K>, t0: Trie<K>, t: Trie<K>, it: Iter, halt: bool)
    requires IterInv(H, t0, t, it) && CanStep(t, it) && it.stack != []
    requires var f := it.stack[|it.stack| - 1]; f.seen && f.next < 4 && t.heap[f.node].child[f.next] != 0
    ensures IterInv(H, t0, t, IterStep(t, it, halt))
  {
    hide At, WellFormed, TrailOk, Extends, StackOk;
    var it' := IterStep(t, it, halt);
    var last := |it.stack| - 1;
    var f := it.stack[last];
    var p := Chosen(it.top, it.stack);
    var rest := Advanced(it.stack);
    AdvancedOk(t, it.top, it.stack);
    AtExtend(t, p, f.next);
    assert it'.stack[..last + 1] == rest;
    assert Chosen(it.top, it'.stack) == p + [f.next];
    PushFrame(t, it.top, rest, it'.stack);
    assert Cursor(it') == p + [f.next] + [] == Cursor(it);
    CursorMoves(t0, t, it, Cursor(it), it', Cursor(it'));
  }

  lemma PushFrame<K>(t: Trie<K>, top: nat, a: seq<Frame>, b: seq<Frame>)
    requires StackOk(t, top, a) && |a| > 0 && a[|a| - 1].seen && 1 <= a[|a| - 1].next
    requires |b| == |a| + 1 && b[..|a|] == a && b[|a|] == Frame(At(t, Chosen(top, b)), false, 0) && b[|a|].node != 0
    ensures StackOk(t, top, b)
  {
    hide At;
    forall d | 0 <= d < |b| ensures FrameOk(t, top, b, d) {
      if d < |a| {
        assert FrameOk(t, top, a, d);
        assert b[..d] == b[..|a|][..d] == a[..d] && b[d] == b[..|a|][d] == a[d];
        FrameSame(t, top, a, b, d);
      } else {
        assert b[..d + 1] == b;
      }
    }
  }

  lemma PopStep<K(!new)>(H: Hasher<K>, t0: Trie<K>, t: Trie<K>, it: Iter, halt: bool)
    requires IterInv(H, t0, t, it) && CanStep(t, it) && it.stack != []
    requires it.stack[|it.stack| - 1].seen && it.stack[|it.stack| - 1].next == 4
    ensures IterInv(H, t0, t, IterStep(t, it, halt))
  {
    hide At, WellFormed, TrailOk, Extends;
    var it' := IterStep(t, it, halt);
    var last := |it.stack| - 1;
    if last == 0 {
      assert [] + [it.top] == [it.top] && [] + [it.top + 1] == [it.top + 1];
      LeaveNode(H, t, [], it.top);
    } else {
      var p := Chosen(it.top, it.stack[..last]);
      var below := it.stack[last - 1];
      assert it'.stack[last - 1] == below;
      assert FrameOk(t, it.top, it.stack, last - 1);
      assert Cursor(it) == p + [below.next - 1] + [4];
      assert Cursor(it') == p + [below.next];
      LeaveNode(H, t, p, below.next - 1);
      PopFrame(t, it.top, it.stack, it'.stack);
    }
    CursorMoves(t0, t, it, Cursor(it), it', Cursor(it'));
  }

  lemma PopFrame<K>(t: Trie<K>, top: nat, a: seq<Frame>, b: seq<Frame>)
    requires StackOk(t, top, a) && |a| > 1 && b == a[..|a| - 1]
    ensures StackOk(t, top, b)
  {
    hide At;
    forall d | 0 <= d < |b| ensures FrameOk(t, top, b, d) {
      assert FrameOk(t, top, a, d);
      assert b[..d] == a[..d];
      FrameSame(t, top, a, b, d);
    }
  }

  lemma StackTopOk<K(!new)>(H: Hasher<K>, t0: Trie<K>, t: Trie<K>, it: Iter)
    requires IterInv(H, t0, t, it) && !Finished(it)
    ensures CanStep(t, it)
    ensures it.stack != [] ==> it.stack[|it.stack| - 1].next <= 4
  {
    hide At;
    if it.stack != [] {
      assert FrameOk(t, it.top, it.stack, |it.stack| - 1);
    }
  }

  lemma IterKeepsInv<K(!new)>(H: Hasher<K>, t0: Trie<K>, t: Trie<K>, it: Iter, halt: bool)
    requires IterInv(H, t0, t, it) && CanStep(t, it)
    ensures IterInv(H, t0, t, IterStep(t, it, halt))
  {
    hide At, WellFormed;
    StackTopOk(H, t0, t, it);
    if it.stack == [] {
      TopStep(H, t0, t, it, halt);
    } else {
      var f := it.stack[|it.stack| - 1];
      if !f.seen { VisitStep(H, t0, t, it, halt); }
      else if f.next < 4 {
        if t.heap[f.node].child[f.next] == 0 { ChildSkip(H, t0, t, it, halt); } else { ChildPush(H, t0, t, it, halt); }
      }
      else { PopStep(H, t0, t, it, halt); }
    }
  }

  // -----------------------------------------------------------------------------
  // Iterator and writers together.

  /** One atomic step: a thread of the protocol moves, or the iterator does. */
  datatype Tick<K> = Writer(thread: nat, action: Action<K>) | Iterate(halt: bool)

  ghost predicate TickOk<K(!new)>(H: Hasher<K>, s: State<K>, it: Iter, tick: Tick<K>, s': State<K>, it': Iter) {
    match tick
    case Writer(i, a) => Enabled(s, i, a) && s' == Step(H, s, i, a) && it' == it
    case Iterate(halt) => s' == s && CanStep(s.trie, it) && it' == IterStep(s.trie, it, halt)
  }

  /** A call of ForEach that begins in state `states[0]`, with any interleaving of other threads. */
  ghost predicate Call<K(!new)>(H: Hasher<K>, states: seq<State<K>>, iters: seq<Iter>, ticks: seq<Tick<K>>) {
    && |states| == |iters| == |ticks| + 1
    && Inv(H, states[0]) && iters[0] == FRESH
    && forall j :: 0 <= j < |ticks| ==> TickOk(H, states[j], iters[j], ticks[j], states[j + 1], iters[j + 1])
  }

  lemma {:induction false} CallKeepsInv<K(!new)>(H: Hasher<K>, states: seq<State<K>>, iters: seq<Iter>,
                                          ticks: seq<Tick<K>>, m: map<K, u64>)
    returns (m': map<K, u64>)
    requires Call(H, states, iters, ticks) && Represents(states[0].trie, m)
    ensures Sim(H, states[|ticks|], m')
    ensures IterInv(H, states[0].trie, states[|ticks|].trie, iters[|ticks|])
    decreases |ticks|
  {
    hide At, Path, WellFormed, Represents, Step, Enabled, IterStep, CanStep, AtomicMap.Step;
    if |ticks| == 0 {
      m' := m;
      FreshInv(H, states[0].trie);
    } else {
      var n := |ticks| - 1;
      m' := CallKeepsInv(H, states[..n + 1], iters[..n + 1], ticks[..n], m);
      assert TickOk(H, states[n], iters[n], ticks[n], states[n + 1], iters[n + 1]);
      match ticks[n]
      case Iterate(halt) =>
        IterKeepsInv(H, states[0].trie, states[n].trie, iters[n], halt);
      case Writer(i, a) =>
        m' := StepSimulates(H, states[n], i, a, m');
        HashTrieSafety.StepWritesOnce(H, states[n], i, a);
        HashTrieSafety.NoNullNode(H, states[n].trie);
        HashTrieSafety.WriteOnceExtends(states[n].trie, states[n + 1].trie);
        WritersKeepIter(H, states[0].trie, states[n].trie, states[n + 1].trie, iters[n]);
    }
  }

  /** ForEach under concurrent writers: no node is visited twice, every visited node is reachable at the
      end, and a pass that is not stopped early visits every node that was reachable when it began. */
  lemma ForEachSnapshot<K(!new)>(H: Hasher<K>, threads: nat, before: seq<State<K>>, moves: seq<Move<K>>,
                                 states: seq<State<K>>, iters: seq<Iter>, ticks: seq<Tick<K>>)
    requires Run(H, threads, before, moves)
    requires Call(H, states, iters, ticks) && states[0] == before[|moves|]
    ensures var (it, t) := (iters[|ticks|], states[|ticks|].trie);
      && (forall i, j :: 0 <= i < j < |it.visited| ==> it.visited[i] != it.visited[j])
      && (forall i :: 0 <= i < |it.visited| ==> Reachable(t, it.visited[i]))
      && (Finished(it) && !it.stop ==> forall p :: Reachable(states[0].trie, p) ==> p in it.visited)
  {
    hide Path, WellFormed, Represents, Step, Enabled, IterStep, CanStep, AtomicMap.Step, Chosen, RegAt;
    var specs := Linearizable(H, threads, before, moves);
    var m' := CallKeepsInv(H, states, iters, ticks, specs[|moves|].m);
    var (it, t0, t) := (iters[|ticks|], states[0].trie, states[|ticks|].trie);
    VisitedDistinct(H, t0, t, it);
    if Finished(it) && !it.stop {
      forall p | Reachable(t0, p) ensures p in it.visited {
        var path :| At(t0, path) == p;
        AllBeforeEnd(H, t, path);
        var i :| 0 <= i < |it.trail| && it.trail[i] == path;
        assert it.visited[i] == p;
      }
    }
  }

  lemma AllBeforeEnd<K(!new)>(H: Hasher<K>, t: Trie<K>, path: seq<nat>)
    requires WellFormed(H, t) && At(t, path) != 0
    ensures Before(path, [TOP_SIZE])
  {
    hide WellFormed;
    ChildNumbers(H, t, path, 0);
    assert PartAt(path, [TOP_SIZE], 0);
  }

  lemma VisitedDistinct<K(!new)>(H: Hasher<K>, t0: Trie<K>, t: Trie<K>, it: Iter)
    requires IterInv(H, t0, t, it)
    ensures forall i, j :: 0 <= i < j < |it.visited| ==> it.visited[i] != it.visited[j]
    ensures forall i :: 0 <= i < |it.visited| ==> Reachable(t, it.visited[i])
  {
    hide At, WellFormed;
    forall i, j | 0 <= i < j < |it.visited| ensures it.visited[i] != it.visited[j] {
      Irreflexive(it.trail[i]);
      assert At(t, it.trail[i]) == it.visited[i] && At(t, it.trail[j]) == it.visited[j];
      if it.visited[i] == it.visited[j] { OnePath(H, t, it.trail[i], it.trail[j]); }
    }
    forall i | 0 <= i < |it.visited| ensures Reachable(t, it.visited[i]) {
      assert At(t, it.trail[i]) == it.visited[i];
    }
  }
}
