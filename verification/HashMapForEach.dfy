/**
 HashMap's ForEach: an explicit 64-frame stack, with recursion below it for deeper subtrees.

 The callback is a function of everything it has been shown so far, which covers any callback whose
 state is its own; it answers whether to stop. `Feed` shows it a list of nodes one by one. The method is
 proved to feed it the image's pre-order list, for any depth, and to count its calls.
 */
module HashMapForEach {
  import opened Machine
  import opened Bytes
  import opened Descent
  import opened TrieShape
  import opened HashFunc
  import opened HashMapLayout
  import opened HashMapPut
  import opened HashMapNodes
  import opened HashMapState
  import opened Memory
  import HM = HashMap

  datatype Entry = Entry(key: seq<u8>, value: u64)

  /** What the callback is shown for a node. Nodes of a safe image always fit. */
  function EntryAt(m: Image, off: nat): Entry {
    if Fits(m, off) then Entry(KeyAt(m, off), Value(m, off)) else Entry([], 0)
  }

  /** Show `pending` in order until the callback asks to stop; returns the log and whether it stopped. */
  function Feed(m: Image, stop: seq<Entry> -> bool, log: seq<Entry>, pending: seq<nat>): (r: (seq<Entry>, bool))
    decreases |pending|
  {
    if pending == [] then (log, false)
    else
      var next := log + [EntryAt(m, pending[0])];
      if stop(next) then (next, true) else Feed(m, stop, next, pending[1..])
  }

  lemma {:induction false} FeedConcat(m: Image, stop: seq<Entry> -> bool, log: seq<Entry>, a: seq<nat>, b: seq<nat>)
    ensures var r := Feed(m, stop, log, a);
      Feed(m, stop, log, a + b) == if r.1 then r else Feed(m, stop, r.0, b)
    decreases |a|
  {
    if a == [] {
      assert a + b == b;
    } else {
      assert (a + b)[0] == a[0] && (a + b)[1..] == a[1..] + b;
      FeedConcat(m, stop, log + [EntryAt(m, a[0])], a[1..], b);
    }
  }

  /** The log is a prefix of the full list, and ends at the first entry the callback stops at, if any. */
  lemma {:induction false} FeedIsPrefix(m: Image, stop: seq<Entry> -> bool, log: seq<Entry>, pending: seq<nat>)
    ensures var (l, stopped) := Feed(m, stop, log, pending); var n := |l| - |log|;
      && 0 <= n <= |pending|
      && l == log + seq(n, i requires 0 <= i < n => EntryAt(m, pending[i]))
      && (!stopped ==> n == |pending|)
      && (stopped ==> n > 0 && stop(l))
      && (forall i :: |log| < i < |l| ==> !stop(l[..i]))
      && (!stopped && n > 0 ==> !stop(l))
    decreases |pending|
  {
    if pending != [] {
      var next := log + [EntryAt(m, pending[0])];
      if !stop(next) {
        FeedIsPrefix(m, stop, next, pending[1..]);
        var l := Feed(m, stop, log, pending).0;
        assert l[..|next|] == next;
      }
    }
  }

  // -----------------------------------------------------------------------------
  // Frames.

  datatype Frame = Frame(node: u32, visited: bool, nextChild: nat)

  ghost predicate FramesOk(m: Image, frames: seq<Frame>) {
    forall i: nat :: i < |frames| ==> Safe(m, frames[i].node) && frames[i].nextChild <= 4
  }

  /** The nodes still to be shown, top frame first. */
  ghost function Pending(m: Image, frames: seq<Frame>): seq<nat>
    requires FramesOk(m, frames)
  {
    if frames == [] then []
    else
      var (n, f) := (|frames| - 1, frames[|frames| - 1]);
      (if f.visited then [] else [f.node as nat]) + NodesFrom(m, f.node, f.nextChild) + Pending(m, frames[..n])
  }

  /** Turns left: six for each node not yet on the stack, and the steps left in each frame. */
  ghost function Left(m: Image, frames: seq<Frame>): nat
    requires FramesOk(m, frames)
  {
    if frames == [] then 0
    else
      var (n, f) := (|frames| - 1, frames[|frames| - 1]);
      6 * |NodesFrom(m, f.node, f.nextChild)| + (5 - f.nextChild) + (if f.visited then 0 else 1) + Left(m, frames[..n])
  }

  function WithTop(frames: seq<Frame>, f: Frame): seq<Frame>
    requires frames != []
  {
    frames[|frames| - 1 := f]
  }

  lemma TopChanged(m: Image, frames: seq<Frame>, f: Frame)
    requires frames != [] && FramesOk(m, frames) && Safe(m, f.node) && f.nextChild <= 4
    ensures FramesOk(m, WithTop(frames, f))
    ensures FramesOk(m, frames[..|frames| - 1]) && WithTop(frames, f)[..|frames| - 1] == frames[..|frames| - 1]
  {
    hide Safe;
  }

  lemma Visited(m: Image, frames: seq<Frame>)
    requires frames != [] && FramesOk(m, frames) && !frames[|frames| - 1].visited
    ensures var f := frames[|frames| - 1]; var after := WithTop(frames, f.(visited := true));
      && FramesOk(m, after)
      && Pending(m, frames) == [f.node as nat] + Pending(m, after)
      && Left(m, after) < Left(m, frames)
  {
    hide Safe, NodesFrom;
    TopChanged(m, frames, frames[|frames| - 1].(visited := true));
  }

  lemma FrameOk(m: Image, frames: seq<Frame>)
    requires frames != [] && FramesOk(m, frames)
    ensures Safe(m, frames[|frames| - 1].node) && frames[|frames| - 1].nextChild <= 4
    ensures FramesOk(m, frames[..|frames| - 1])
  {
    hide Safe;
  }

  /** One unfolding of `Pending` and `Left` for a visited top frame. */
  lemma UnfoldTop(m: Image, frames: seq<Frame>)
    requires frames != [] && FramesOk(m, frames) && frames[|frames| - 1].visited
    ensures var (n, f) := (|frames| - 1, frames[|frames| - 1]);
      && Safe(m, f.node) && f.nextChild <= 4 && FramesOk(m, frames[..n])
      && Pending(m, frames) == [] + NodesFrom(m, f.node, f.nextChild) + Pending(m, frames[..n])
      && Left(m, frames) == 6 * |NodesFrom(m, f.node, f.nextChild)| + (5 - f.nextChild) + Left(m, frames[..n])
  {
    hide Safe, NodesFrom, FramesOk;
    FrameOk(m, frames);
  }

  /** The frame's next child: what is pending below it, then the rest. */
  lemma ChildTaken(m: Image, frames: seq<Frame>, f: Frame, after: seq<Frame>, q: u32)
    requires frames != [] && FramesOk(m, frames) && f == frames[|frames| - 1] && f.visited && f.nextChild < 4
    requires after == WithTop(frames, f.(nextChild := f.nextChild + 1))
    requires f.node + 40 <= |m| && q == Link(m, f.node, f.nextChild)
    ensures FramesOk(m, after) && (q != 0 ==> Safe(m, q))
    ensures Pending(m, frames) == Below(m, q) + Pending(m, after)
    ensures Left(m, after) + 6 * |Below(m, q)| < Left(m, frames)
  {
    hide Safe, Nodes, NodesFrom, Below, Pending, Left, FramesOk, Link;
    FrameOk(m, frames);
    TopChanged(m, frames, f.(nextChild := f.nextChild + 1));
    ChildList(m, f.node, f.nextChild);
    UnfoldTop(m, frames);
    UnfoldTop(m, after);
    var rest := frames[..|frames| - 1];
    assert after[..|frames| - 1] == rest && after[|frames| - 1] == f.(nextChild := f.nextChild + 1);
    var later := NodesFrom(m, f.node, f.nextChild + 1);
    Assoc(Below(m, q), later, Pending(m, rest));
  }

  /** A child slot's subtree; nothing for an empty slot. */
  ghost function Below(m: Image, q: u32): seq<nat> {
    if q == 0 || !Safe(m, q) then [] else Nodes(m, q)
  }

  lemma ChildList(m: Image, off: nat, c: nat)
    requires Safe(m, off) && c < 4
    ensures off + 40 <= |m| && var q := Link(m, off, c);
      && (q != 0 ==> q > off && Safe(m, q))
      && NodesFrom(m, off, c) == Below(m, q) + NodesFrom(m, off, c + 1)
  {
    hide Nodes;
    SafeStep(m, off);
  }

  lemma Assoc(a: seq<nat>, b: seq<nat>, c: seq<nat>)
    ensures [] + (a + b) + c == a + ([] + b + c)
  {
  }

  lemma Pushed(m: Image, frames: seq<Frame>, q: u32)
    requires FramesOk(m, frames) && Safe(m, q)
    ensures var after := frames + [Frame(q, false, 0)];
      && FramesOk(m, after)
      && Pending(m, after) == Nodes(m, q) + Pending(m, frames)
      && Left(m, after) == Left(m, frames) + 6 * |Nodes(m, q)|
  {
    hide Safe, NodesFrom;
    var after := frames + [Frame(q, false, 0)];
    assert after[..|frames|] == frames;
  }

  lemma Popped(m: Image, frames: seq<Frame>)
    requires frames != [] && FramesOk(m, frames) && frames[|frames| - 1].visited && frames[|frames| - 1].nextChild == 4
    ensures var after := frames[..|frames| - 1];
      && FramesOk(m, after) && Pending(m, frames) == Pending(m, after) && Left(m, after) < Left(m, frames)
  {
    hide Safe;
  }

  // -----------------------------------------------------------------------------
  // The methods.

  /** What the callback sees of the node at `off`, read from memory. */
  method Show(hm: HM.HashMap, off: u32) returns (e: Entry)
    requires hm.Readable() && Safe(hm.Image(), off)
    ensures e == EntryAt(hm.Image(), off)
  {
    hide Load32, SafeRoots;
    ghost var m := hm.Image();
    SafeStep(m, off);
    hide Safe;
    var len := Word32(hm.arena.mem, off + 32);
    e := Entry(hm.arena.mem[off + 40..off + 40 + len], Word64(hm.arena.mem, off + 24));
    assert e.key == KeyAt(m, off);
  }

  /** `rgm_hash_map_foreach_rec`: a whole subtree. */
  method ForEachRec(hm: HM.HashMap, node: u32, stop: seq<Entry> -> bool, log0: seq<Entry>)
    returns (count: nat, log: seq<Entry>, stopped: bool)
    requires hm.Readable() && Safe(hm.Image(), node)
    ensures (log, stopped) == Feed(hm.Image(), stop, log0, Nodes(hm.Image(), node))
    ensures count == |log| - |log0|
    decreases |hm.Image()| - node, 1
  {
    hide Safe, SafeRoots, NodesFrom, Nodes, EntryAt, HM.HashMap.Bound;
    var e := Show(hm, node);
    log, count := log0 + [e], 1;
    stopped := stop(log);
    NodesSplit(hm.Image(), node);
    if !stopped {
      var n;
      n, log, stopped := ForEachChildren(hm, node, stop, log);
      count := count + n;
    }
  }

  /** Its loop over the four children. */
  method ForEachChildren(hm: HM.HashMap, node: u32, stop: seq<Entry> -> bool, log0: seq<Entry>)
    returns (count: nat, log: seq<Entry>, stopped: bool)
    requires hm.Readable() && Safe(hm.Image(), node)
    ensures (log, stopped) == Feed(hm.Image(), stop, log0, NodesFrom(hm.Image(), node, 0))
    ensures count == |log| - |log0|
    decreases |hm.Image()| - node, 0
  {
    hide Safe, Nodes, Feed, SafeRoots, NodesFrom, Below, Load32, EntryAt, HM.HashMap.Bound;
    ghost var m := hm.Image();
    ghost var all := Feed(m, stop, log0, NodesFrom(m, node, 0));
    log, count, stopped := log0, 0, false;
    var i: nat := 0;
    while i < 4
      invariant i <= 4 && !stopped && count == |log| - |log0|
      invariant all == Feed(m, stop, log, NodesFrom(m, node, i))
    {
      ChildSplit(m, stop, log, node, i);
      var cur := hm.LoadChild(node, i);
      FeedBelow(m, stop, log, cur);
      if cur != 0 {
        var n;
        n, log, stopped := ForEachRec(hm, cur, stop, log);
        count := count + n;
        if stopped {
          return;
        }
      }
      i := i + 1;
    }
    NothingLeft(m, stop, log, node);
  }

  lemma NodesSplit(m: Image, node: nat)
    requires Safe(m, node)
    ensures Nodes(m, node) != [] && Nodes(m, node)[0] == node && Nodes(m, node)[1..] == NodesFrom(m, node, 0)
  {
    hide Safe, NodesFrom;
  }

  lemma ChildSplit(m: Image, stop: seq<Entry> -> bool, log: seq<Entry>, node: nat, c: nat)
    requires Safe(m, node) && c < 4
    ensures node + 40 <= |m|
    ensures var q := Link(m, node, c); var r := Feed(m, stop, log, Below(m, q));
      && (q != 0 ==> q > node && Safe(m, q))
      && Feed(m, stop, log, NodesFrom(m, node, c)) == if r.1 then r else Feed(m, stop, r.0, NodesFrom(m, node, c + 1))
  {
    hide Safe, Nodes, Feed, NodesFrom, Below;
    ChildList(m, node, c);
    FeedConcat(m, stop, log, Below(m, Link(m, node, c)), NodesFrom(m, node, c + 1));
  }

  /** An empty slot shows nothing; a full one shows its subtree. */
  lemma FeedBelow(m: Image, stop: seq<Entry> -> bool, log: seq<Entry>, q: u32)
    ensures q == 0 ==> Feed(m, stop, log, Below(m, q)) == (log, false)
    ensures q != 0 && Safe(m, q) ==> Below(m, q) == Nodes(m, q)
  {
    hide Safe, Nodes;
  }

  lemma NothingLeft(m: Image, stop: seq<Entry> -> bool, log: seq<Entry>, node: nat)
    requires Safe(m, node)
    ensures Feed(m, stop, log, NodesFrom(m, node, 4)) == (log, false)
  {
  }

  const STACK_DEPTH: nat := 64

  /** How the rest of the walk reads, given the callback's last answer. */
  ghost predicate OnCourse(m: Image, stop: seq<Entry> -> bool, log0: seq<Entry>, root: nat,
                           log: seq<Entry>, stopped: bool, frames: seq<Frame>)
    requires Safe(m, root) && FramesOk(m, frames)
  {
    Feed(m, stop, log0, Nodes(m, root)) == if stopped then (log, true) else Feed(m, stop, log, Pending(m, frames))
  }

  lemma StartCourse(m: Image, stop: seq<Entry> -> bool, log0: seq<Entry>, root: u32)
    requires Safe(m, root)
    ensures FramesOk(m, [Frame(root, false, 0)])
    ensures OnCourse(m, stop, log0, root, log0, false, [Frame(root, false, 0)])
  {
    hide Feed;
    Pushed(m, [], root);
    assert [] + [Frame(root, false, 0)] == [Frame(root, false, 0)];
    assert Nodes(m, root) + [] == Nodes(m, root);
  }

  lemma ShowTop(m: Image, stop: seq<Entry> -> bool, log0: seq<Entry>, root: nat, log: seq<Entry>, frames: seq<Frame>)
    requires Safe(m, root) && FramesOk(m, frames) && frames != [] && !frames[|frames| - 1].visited
    requires OnCourse(m, stop, log0, root, log, false, frames)
    ensures var f := frames[|frames| - 1]; var after := WithTop(frames, f.(visited := true));
      var next := log + [EntryAt(m, f.node)];
      && FramesOk(m, after) && Left(m, after) < Left(m, frames)
      && OnCourse(m, stop, log0, root, next, stop(next), after)
  {
    hide Safe, EntryAt, Pending, Left;
    Visited(m, frames);
    var f := frames[|frames| - 1];
    var after := WithTop(frames, f.(visited := true));
    assert Pending(m, frames)[0] == f.node && Pending(m, frames)[1..] == Pending(m, after);
  }

  lemma TakeChild(m: Image, stop: seq<Entry> -> bool, log0: seq<Entry>, root: nat, log: seq<Entry>,
                  frames: seq<Frame>, f: Frame, after: seq<Frame>, q: u32)
    requires Safe(m, root) && FramesOk(m, frames)
    requires frames != [] && f == frames[|frames| - 1] && f.visited && f.nextChild < 4
    requires after == WithTop(frames, f.(nextChild := f.nextChild + 1))
    requires f.node + 40 <= |m| && q == Link(m, f.node, f.nextChild)
    requires OnCourse(m, stop, log0, root, log, false, frames)
    ensures FramesOk(m, after) && Left(m, after) < Left(m, frames)
    ensures q == 0 ==> OnCourse(m, stop, log0, root, log, false, after)
    ensures q != 0 ==>
      && Safe(m, q) && FramesOk(m, after + [Frame(q, false, 0)])
      && Left(m, after + [Frame(q, false, 0)]) < Left(m, frames)
      && OnCourse(m, stop, log0, root, log, false, after + [Frame(q, false, 0)])
      && var r := Feed(m, stop, log, Nodes(m, q)); OnCourse(m, stop, log0, root, r.0, r.1, after)
  {
    hide Safe, Pending, Left, Feed, Nodes, Below;
    ChildTaken(m, frames, f, after, q);
    FeedBelow(m, stop, log, q);
    FeedConcat(m, stop, log, Below(m, q), Pending(m, after));
    if q != 0 {
      Pushed(m, after, q);
    }
  }

  /** First sight of the top frame: call back. */
  method VisitTop(hm: HM.HashMap, stack: array<Frame>, sp: nat, stop: seq<Entry> -> bool, log0: seq<Entry>,
                  ghost base: seq<Entry>, ghost root: nat)
    returns (log: seq<Entry>, stopped: bool)
    requires hm.Readable() && 0 < sp <= stack.Length && (stack as object) !in {hm.arena.mem as object, hm.top as object}
    requires Safe(hm.Image(), root) && FramesOk(hm.Image(), stack[..sp]) && !stack[sp - 1].visited
    requires OnCourse(hm.Image(), stop, base, root, log0, false, stack[..sp])
    modifies stack
    ensures hm.Readable() && hm.Image() == old(hm.Image()) && hm.top[..] == old(hm.top[..])
    ensures FramesOk(hm.Image(), stack[..sp]) && stack[sp - 1].visited
    ensures Left(hm.Image(), stack[..sp]) < old(Left(hm.Image(), stack[..sp]))
    ensures OnCourse(hm.Image(), stop, base, root, log, stopped, stack[..sp])
    ensures |log| == |log0| + 1
  {
    hide Safe, SafeRoots, Left, EntryAt, OnCourse;
    ghost var (m, frames) := (hm.Image(), stack[..sp]);
    assert frames[sp - 1] == stack[sp - 1];
    ShowTop(m, stop, base, root, log0, frames);
    var e := Show(hm, stack[sp - 1].node);
    stack[sp - 1] := stack[sp - 1].(visited := true);
    assert stack[..sp] == WithTop(frames, stack[sp - 1]);
    log := log0 + [e];
    stopped := stop(log);
  }

  /** Push the top frame's next child, visit it recursively when the stack is full, or pop. */
  method AdvanceTop(hm: HM.HashMap, stack: array<Frame>, sp0: nat, stop: seq<Entry> -> bool, log0: seq<Entry>,
                    ghost base: seq<Entry>, ghost root: nat)
    returns (sp: nat, count: nat, log: seq<Entry>, stopped: bool)
    requires hm.Readable() && 0 < sp0 <= stack.Length == STACK_DEPTH && (stack as object) !in {hm.arena.mem as object, hm.top as object}
    requires Safe(hm.Image(), root) && FramesOk(hm.Image(), stack[..sp0]) && stack[sp0 - 1].visited
    requires OnCourse(hm.Image(), stop, base, root, log0, false, stack[..sp0])
    modifies stack
    ensures hm.Readable() && hm.Image() == old(hm.Image()) && hm.top[..] == old(hm.top[..])
    ensures sp <= STACK_DEPTH && FramesOk(hm.Image(), stack[..sp])
    ensures Left(hm.Image(), stack[..sp]) < old(Left(hm.Image(), stack[..sp0]))
    ensures OnCourse(hm.Image(), stop, base, root, log, stopped, stack[..sp])
    ensures count == |log| - |log0|
  {
    hide Safe, SafeRoots, Left, OnCourse, Load32, Nodes;
    ghost var (m, frames) := (hm.Image(), stack[..sp0]);
    sp, count, log, stopped := sp0, 0, log0, false;
    var f := stack[sp - 1];
    assert frames[sp - 1] == f;
    if f.nextChild < 4 {
      FrameFits(m, frames);
      var cur := hm.LoadChild(f.node, f.nextChild);
      stack[sp - 1] := f.(nextChild := f.nextChild + 1);
      ghost var after := stack[..sp];
      assert after == WithTop(frames, stack[sp - 1]);
      TakeChild(m, stop, base, root, log, frames, f, after, cur);
      if cur != 0 {
        if sp < STACK_DEPTH {
          stack[sp] := Frame(cur, false, 0);
          sp := sp + 1;
          assert stack[..sp] == after + [Frame(cur, false, 0)];
        } else {
          count, log, stopped := ForEachRec(hm, cur, stop, log);
        }
      }
    } else {
      Popped(m, frames);
      CoursePopped(m, stop, base, root, log, frames);
      sp := sp - 1;
      assert stack[..sp] == frames[..sp];
    }
  }

  /** The stack loop under one root. */
  method ForEachRoot(hm: HM.HashMap, root: u32, stack: array<Frame>, stop: seq<Entry> -> bool, log0: seq<Entry>)
    returns (count: nat, log: seq<Entry>, stopped: bool)
    requires hm.Readable() && Safe(hm.Image(), root) && stack.Length == STACK_DEPTH
    requires (stack as object) !in {hm.arena.mem as object, hm.top as object}
    modifies stack
    ensures hm.Readable() && hm.Image() == old(hm.Image()) && hm.top[..] == old(hm.top[..])
    ensures (log, stopped) == Feed(hm.Image(), stop, log0, Nodes(hm.Image(), root))
    ensures count == |log| - |log0|
  {
    hide Safe, Nodes, Feed, SafeRoots, Left, OnCourse, FramesOk;
    ghost var m := hm.Image();
    StartCourse(m, stop, log0, root);
    log, count, stopped := log0, 0, false;
    stack[0] := Frame(root, false, 0);
    var sp: nat := 1;
    assert stack[..1] == [Frame(root, false, 0)];
    while sp > 0 && !stopped
      invariant sp <= STACK_DEPTH && m == hm.Image() && hm.top[..] == old(hm.top[..]) && hm.Readable()
      invariant FramesOk(m, stack[..sp]) && OnCourse(m, stop, log0, root, log, stopped, stack[..sp])
      invariant count == |log| - |log0|
      decreases Left(m, stack[..sp])
    {
      if !stack[sp - 1].visited {
        log, stopped := VisitTop(hm, stack, sp, stop, log, log0, root);
        count := count + 1;
        if stopped {
          break;
        }
      }
      var n;
      sp, n, log, stopped := AdvanceTop(hm, stack, sp, stop, log, log0, root);
      count := count + n;
    }
    CourseEnds(m, stop, log0, root, log, stopped, stack[..sp]);
  }

  lemma FrameFits(m: Image, frames: seq<Frame>)
    requires frames != [] && FramesOk(m, frames)
    ensures frames[|frames| - 1].node + 40 <= |m|
  {
    assert Safe(m, frames[|frames| - 1].node);
  }

  lemma CoursePopped(m: Image, stop: seq<Entry> -> bool, log0: seq<Entry>, root: nat,
                     log: seq<Entry>, frames: seq<Frame>)
    requires Safe(m, root) && FramesOk(m, frames) && frames != [] && frames[|frames| - 1].visited && frames[|frames| - 1].nextChild == 4
    requires OnCourse(m, stop, log0, root, log, false, frames)
    ensures FramesOk(m, frames[..|frames| - 1]) && OnCourse(m, stop, log0, root, log, false, frames[..|frames| - 1])
  {
    hide Safe, Pending, Left, Feed, Nodes;
    Popped(m, frames);
  }

  lemma CourseEnds(m: Image, stop: seq<Entry> -> bool, log0: seq<Entry>, root: nat, log: seq<Entry>,
                   stopped: bool, frames: seq<Frame>)
    requires Safe(m, root) && FramesOk(m, frames) && (stopped || frames == [])
    requires OnCourse(m, stop, log0, root, log, stopped, frames)
    ensures (log, stopped) == Feed(m, stop, log0, Nodes(m, root))
  {
    hide Safe, Nodes;
  }

  lemma RootSplit(m: Image, top: seq<u32>, stop: seq<Entry> -> bool, log: seq<Entry>, i: nat)
    requires SafeRoots(m, top) && i < |top|
    ensures top[i] == 0 ==> Feed(m, stop, log, RootsFrom(m, top, i)) == Feed(m, stop, log, RootsFrom(m, top, i + 1))
    ensures top[i] != 0 ==> Safe(m, top[i])
    ensures top[i] != 0 ==>
      var r := Feed(m, stop, log, Nodes(m, top[i]));
      Feed(m, stop, log, RootsFrom(m, top, i)) == if r.1 then r else Feed(m, stop, r.0, RootsFrom(m, top, i + 1))
  {
    hide Safe, Nodes, Feed;
    if top[i] != 0 {
      FeedConcat(m, stop, log, Nodes(m, top[i]), RootsFrom(m, top, i + 1));
    } else {
      assert [] + RootsFrom(m, top, i + 1) == RootsFrom(m, top, i + 1);
    }
  }

  /** `rgHashMapForEach`: exactly the pre-order list, cut where the callback stops; the count is the
      number of calls. */
  method ForEach(hm: HM.HashMap, stop: seq<Entry> -> bool) returns (count: nat, log: seq<Entry>, stopped: bool)
    requires hm.Readable()
    ensures (log, stopped) == Feed(hm.Image(), stop, [], AllNodes(hm.Image(), hm.top[..]))
    ensures count == |log|
  {
    hide Safe, Nodes, Feed, RootsFrom;
    ghost var (m, tops) := (hm.Image(), hm.top[..]);
    var stack := new Frame[STACK_DEPTH](_ => Frame(0, true, 4));
    count, log, stopped := 0, [], false;
    var i: nat := 0;
    while i < TOP_SIZE && !stopped
      invariant i <= TOP_SIZE && m == hm.Image() && tops == hm.top[..] && hm.Readable()
      invariant Feed(m, stop, [], AllNodes(m, tops)) == if stopped then (log, true) else Feed(m, stop, log, RootsFrom(m, tops, i))
      invariant count == |log|
    {
      RootSplit(m, tops, stop, log, i);
      var root := hm.top[i];
      if root != 0 {
        var n;
        n, log, stopped := ForEachRoot(hm, root, stack, stop, log);
        count := count + n;
      }
      i := i + 1;
    }
    if !stopped { RootsEnd(m, tops, stop, log); }
  }

  lemma RootsEnd(m: Image, top: seq<u32>, stop: seq<Entry> -> bool, log: seq<Entry>)
    requires SafeRoots(m, top)
    ensures Feed(m, stop, log, RootsFrom(m, top, TOP_SIZE)) == (log, false)
  {
    hide Safe;
  }

  /** On a valid map the pre-order list shows every entry exactly once. */
  lemma ForEachShowsEntries(H: Hasher<Key>, s: MapState)
    requires MapOk(H, s)
    ensures var list := AllNodes(s.m, s.top);
      && |list| == |s.contents|
      && (forall i: nat :: i < |list| ==>
            EntryAt(s.m, list[i]).key in s.contents && s.contents[EntryAt(s.m, list[i]).key] == EntryAt(s.m, list[i]).value)
      && (forall i: nat, j: nat :: i < j < |list| ==> EntryAt(s.m, list[i]).key != EntryAt(s.m, list[j]).key)
      && (forall k :: k in s.contents ==> exists i: nat :: i < |list| && EntryAt(s.m, list[i]).key == k)
  {
    hide MapOk, AllNodes, Lookup, SafeRoots;
    MapOkSafe(H, s);
    var list := AllNodes(s.m, s.top);
    ListFacts(H, s);
    forall i: nat | i < |list|
      ensures list[i] in s.offs && Fits(s.m, list[i]) && EntryAt(s.m, list[i]) == Entry(KeyAt(s.m, list[i]), Value(s.m, list[i]))
      ensures KeyAt(s.m, list[i]) in s.contents && s.contents[KeyAt(s.m, list[i])] == Value(s.m, list[i])
      ensures Lookup(H, s.m, s.top, KeyAt(s.m, list[i])) == list[i]
    {
      KeyPresent(H, s, list[i]);
    }
    forall k | k in s.contents ensures exists i: nat :: i < |list| && EntryAt(s.m, list[i]).key == k {
      ContentsFit(H, s, k);
      var i: nat :| i < |list| && list[i] == Lookup(H, s.m, s.top, k);
      assert EntryAt(s.m, list[i]).key == k;
    }
    SameCount(list, (off: nat) => EntryAt(s.m, off).key, s.contents.Keys);
  }

  lemma ListFacts(H: Hasher<Key>, s: MapState)
    requires MapOk(H, s)
    ensures SafeRoots(s.m, s.top) && AllFit(s.m, s.offs)
    ensures var list := AllNodes(s.m, s.top);
      && (forall i: nat :: i < |list| ==> list[i] in s.offs && Fits(s.m, list[i]))
      && (forall o: nat :: o in s.offs ==> o in list)
      && (forall i: nat, j: nat :: i < j < |list| ==> list[i] != list[j])
  {
    hide AllNodes, Honest, SafeRoots, Represents, AllLinked;
    MapFits(H, s);
    AllNodesEnumerate(H, s.m, s.top, s.offs);
  }

  /** A list without repetitions has as many elements as the set it maps onto. */
  lemma {:induction false} SameCount<K(!new)>(list: seq<nat>, key: nat -> K, keys: set<K>)
    requires forall i: nat :: i < |list| ==> key(list[i]) in keys
    requires forall i: nat, j: nat :: i < j < |list| ==> key(list[i]) != key(list[j])
    requires forall k :: k in keys ==> exists i: nat :: i < |list| && key(list[i]) == k
    ensures |list| == |keys|
    decreases |list|
  {
    if list == [] {
      assert keys == {};
    } else {
      var n := |list| - 1;
      var (rest, k) := (list[..n], key(list[n]));
      forall j | j in keys - {k} ensures exists i: nat :: i < |rest| && key(rest[i]) == j {
        var i: nat :| i < |list| && key(list[i]) == j;
        assert rest[i] == list[i];
      }
      SameCount(rest, key, keys - {k});
    }
  }
}
