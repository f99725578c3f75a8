/**
 The validator that Open runs over an untrusted node graph.

 `Check` is the recursive statement of the walk; the method below is the source's loop with an explicit
 256-frame stack and a visit budget. `CheckExact` says what acceptance means: the subtree is safe to
 walk, at most 256 levels deep, and its pre-order list, counting shared nodes once per visit, fits the
 budget.
 */
module HashMapValidate {
  import opened Machine
  import opened Bytes
  import opened Memory
  import opened Descent
  import opened HashMapLayout
  import opened HashMapNodes

  const MAX_DEPTH: nat := 256

  /** The tests made on each offset before it is pushed. */
  predicate Admits(m: Image, off: nat, parent: nat, depth: nat, budget: nat) {
    && off >= CACHE_LINE
    && off > parent
    && off % 8 == 0
    && off + NODE_SIZE <= |m|
    && budget != 0
    && depth != MAX_DEPTH
    && KeyLen(m, off) <= |m| - off - NODE_SIZE
  }

  /** What is left of the budget after visiting `off` and everything below it, or None. */
  function Check(m: Image, off: nat, parent: nat, depth: nat, budget: nat): Option<nat>
    decreases |m| - off, 6
  {
    if !Admits(m, off, parent, depth, budget) then None
    else CheckFrom(m, off, 0, depth + 1, budget - 1)
  }

  function CheckFrom(m: Image, off: nat, c: nat, depth: nat, budget: nat): Option<nat>
    requires off + 40 <= |m| && c <= 4
    decreases |m| - off, 5 - c
  {
    if c == 4 then Some(budget)
    else
      var q := Link(m, off, c);
      if q == 0 then CheckFrom(m, off, c + 1, depth, budget)
      else if q <= off then None
      else
        var r := Check(m, q, off, depth, budget);
        if r.None? then None else CheckFrom(m, off, c + 1, depth, r.value)
  }

  function CheckRoots(m: Image, top: seq<u32>, i: nat, budget: nat): Option<nat>
    requires i <= |top|
    decreases |top| - i
  {
    if i == |top| then Some(budget)
    else if top[i] == 0 then CheckRoots(m, top, i + 1, budget)
    else
      var r := Check(m, top[i], 0, 0, budget);
      if r.None? then None else CheckRoots(m, top, i + 1, r.value)
  }

  // -----------------------------------------------------------------------------
  // What the verdict means.

  ghost predicate Accepts(m: Image, off: nat, parent: nat, depth: nat, budget: nat) {
    off > parent && Safe(m, off) && depth + Depth(m, off) <= MAX_DEPTH && |Nodes(m, off)| <= budget
  }

  lemma {:induction false} CheckExact(m: Image, off: nat, parent: nat, depth: nat, budget: nat)
    requires depth <= MAX_DEPTH
    ensures Check(m, off, parent, depth, budget)
         == if Accepts(m, off, parent, depth, budget) then Some(budget - |Nodes(m, off)|) else None
    decreases |m| - off, 6
  {
    hide Safe, Nodes, Depth, SafeFrom, CheckFrom, DeepFrom, ListFrom;
    if Admits(m, off, parent, depth, budget) {
      CheckFromExact(m, off, 0, depth + 1, budget - 1);
      SafeIff(m, off);
      if Safe(m, off) { Unfold(m, off); }
    } else if Safe(m, off) {
      SafeStep(m, off);
      Unfold(m, off);
    }
  }

  lemma SafeIff(m: Image, off: nat)
    requires InBounds(m, off)
    ensures Safe(m, off) <==> SafeFrom(m, off, 0)
  {
  }

  lemma Unfold(m: Image, off: nat)
    requires Safe(m, off)
    ensures off + 40 <= |m| && SafeFrom(m, off, 0)
    ensures Depth(m, off) == 1 + DeepFrom(m, off, 0) && Nodes(m, off) == [off] + ListFrom(m, off, 0)
  {
    SafeFromAgrees(m, off, 0);
  }

  /** Children `c` to 3 of `off` are safe. */
  ghost predicate SafeFrom(m: Image, off: nat, c: nat)
    requires off + 40 <= |m|
  {
    forall d: nat :: c <= d < 4 ==> var q := Link(m, off, d); q == 0 || (q > off && Safe(m, q))
  }

  ghost function DeepFrom(m: Image, off: nat, c: nat): nat
    requires off + 40 <= |m| && c <= 4 && SafeFrom(m, off, c)
    decreases 4 - c
  {
    if c == 4 then 0
    else
      var q := Link(m, off, c);
      var (a, b) := (if q == 0 then 0 else Depth(m, q), DeepFrom(m, off, c + 1));
      if a > b then a else b
  }

  ghost function ListFrom(m: Image, off: nat, c: nat): seq<nat>
    requires off + 40 <= |m| && c <= 4 && SafeFrom(m, off, c)
    decreases 4 - c
  {
    if c == 4 then []
    else
      var q := Link(m, off, c);
      (if q == 0 then [] else Nodes(m, q)) + ListFrom(m, off, c + 1)
  }

  lemma {:induction false} SafeFromAgrees(m: Image, off: nat, c: nat)
    requires Safe(m, off) && c <= 4
    ensures SafeFrom(m, off, c) && DeepFrom(m, off, c) == DepthFrom(m, off, c) && ListFrom(m, off, c) == NodesFrom(m, off, c)
    decreases 4 - c
  {
    if c < 4 { SafeFromAgrees(m, off, c + 1); }
  }

  lemma {:induction false} CheckFromExact(m: Image, off: nat, c: nat, depth: nat, budget: nat)
    requires off + 40 <= |m| && c <= 4 && depth <= MAX_DEPTH
    ensures CheckFrom(m, off, c, depth, budget)
         == if SafeFrom(m, off, c) && depth + DeepFrom(m, off, c) <= MAX_DEPTH && |ListFrom(m, off, c)| <= budget
            then Some(budget - |ListFrom(m, off, c)|) else None
    decreases |m| - off, 5 - c
  {
    hide Safe, Nodes, Depth, Check;
    if c < 4 {
      var q := Link(m, off, c);
      assert SafeFrom(m, off, c) <==> (q == 0 || (q > off && Safe(m, q))) && SafeFrom(m, off, c + 1);
      if q == 0 {
        CheckFromExact(m, off, c + 1, depth, budget);
      } else if q > off {
        CheckExact(m, q, off, depth, budget);
        var r := Check(m, q, off, depth, budget);
        if r.Some? { CheckFromExact(m, off, c + 1, depth, r.value); }
      }
    }
  }

  // -----------------------------------------------------------------------------
  // All roots.

  ghost predicate AcceptsRoots(m: Image, top: seq<u32>, i: nat, budget: nat)
    requires i <= |top|
  {
    && SafeTail(m, top, i)
    && (forall j: nat | i <= j < |top| && top[j] != 0 :: Depth(m, top[j]) <= MAX_DEPTH)
    && |RootsFrom(m, top, i)| <= budget
  }

  lemma {:induction false} CheckRootsExact(m: Image, top: seq<u32>, i: nat, budget: nat)
    requires i <= |top|
    ensures CheckRoots(m, top, i, budget)
         == if AcceptsRoots(m, top, i, budget) then Some(budget - |RootsFrom(m, top, i)|) else None
    decreases |top| - i
  {
    hide Safe, Nodes, Depth, Check;
    if i < |top| {
      if top[i] == 0 {
        CheckRootsExact(m, top, i + 1, budget);
        assert SafeTail(m, top, i + 1) ==> SafeTail(m, top, i);
      } else {
        CheckExact(m, top[i], 0, 0, budget);
        var r := Check(m, top[i], 0, 0, budget);
        if r.Some? {
          CheckRootsExact(m, top, i + 1, r.value);
          assert SafeTail(m, top, i + 1) ==> SafeTail(m, top, i);
        }
      }
    }
  }

  /** Acceptance, in full: safe to walk, at most 256 deep, and no more visits than nodes could fit. */
  lemma ValidatorExact(m: Image, top: seq<u32>, budget: nat)
    requires |top| == TOP_SIZE
    ensures CheckRoots(m, top, 0, budget).Some? <==>
      SafeRoots(m, top) && DepthAtMost(m, top, MAX_DEPTH) && |AllNodes(m, top)| <= budget
  {
    hide Safe, Nodes, Depth, CheckRoots, RootsFrom;
    CheckRootsExact(m, top, 0, budget);
  }

  // -----------------------------------------------------------------------------
  // The source's loop.

  datatype Frame = Frame(off: u32, next: nat)

  ghost predicate FramesOk(m: Image, frames: seq<Frame>) {
    forall i :: 0 <= i < |frames| ==> frames[i].off + 40 <= |m| && frames[i].next <= 4
  }

  /** What is still to do when the walk returns to these frames. */
  ghost function Unwind(m: Image, frames: seq<Frame>, budget: nat): Option<nat>
    requires FramesOk(m, frames)
    decreases |frames|, 0
  {
    if frames == [] then Some(budget)
    else
      var (n, f) := (|frames| - 1, frames[|frames| - 1]);
      Resume(m, CheckFrom(m, f.off, f.next, n + 1, budget), frames[..n])
  }

  ghost function Resume(m: Image, r: Option<nat>, frames: seq<Frame>): Option<nat>
    requires FramesOk(m, frames)
    decreases |frames|, 1
  {
    if r.None? then None else Unwind(m, frames, r.value)
  }

  function Bumped(frames: seq<Frame>): seq<Frame>
    requires frames != []
  {
    var n := |frames| - 1;
    frames[n := frames[n].(next := frames[n].next + 1)]
  }

  /** Looking at the top frame's next child. */
  lemma NextChild(m: Image, frames: seq<Frame>, budget: nat)
    requires frames != [] && FramesOk(m, frames) && frames[|frames| - 1].next < 4
    ensures FramesOk(m, Bumped(frames))
    ensures var f := frames[|frames| - 1]; var q := Link(m, f.off, f.next);
      Unwind(m, frames, budget) == if q == 0 then Unwind(m, Bumped(frames), budget)
                                   else Resume(m, Check(m, q, f.off, |frames|, budget), Bumped(frames))
  {
    hide Load32;
    var n := |frames| - 1;
    assert Bumped(frames)[..n] == frames[..n];
  }

  lemma Pushed(m: Image, frames: seq<Frame>, off: u32, parent: nat, budget: nat)
    requires FramesOk(m, frames) && Admits(m, off, parent, |frames|, budget)
    ensures FramesOk(m, frames + [Frame(off, 0)])
    ensures Resume(m, Check(m, off, parent, |frames|, budget), frames) == Unwind(m, frames + [Frame(off, 0)], budget - 1)
  {
    assert (frames + [Frame(off, 0)])[..|frames|] == frames;
  }

  lemma Popped(m: Image, frames: seq<Frame>, budget: nat)
    requires frames != [] && FramesOk(m, frames) && frames[|frames| - 1].next == 4
    ensures FramesOk(m, frames[..|frames| - 1])
    ensures Unwind(m, frames, budget) == Unwind(m, frames[..|frames| - 1], budget)
  {
  }

  /** The inner loops of the walk: the next child to descend into, popping finished frames. */
  method NextOffset(mem: array<u8>, highWater: nat, stack: array<Frame>, sp0: nat, ghost budget: nat)
    returns (sp: nat, off: u32, parent: u32)
    requires highWater <= mem.Length && sp0 <= stack.Length && FramesOk(mem[..highWater], stack[..sp0])
    requires (stack as object) != (mem as object)
    modifies stack
    ensures sp <= sp0 && mem[..highWater] == old(mem[..highWater]) && FramesOk(mem[..highWater], stack[..sp])
    ensures old(Unwind(mem[..highWater], stack[..sp0], budget)) ==
      if sp == 0 then Some(budget)
      else Resume(mem[..highWater], Check(mem[..highWater], off, parent, sp, budget), stack[..sp])
  {
    hide Check, CheckFrom, Unwind, Resume, Load32;
    ghost var m := mem[..highWater];
    ghost var goal := Unwind(m, stack[..sp0], budget);
    sp, off, parent := sp0, 0, 0;
    while sp > 0
      invariant sp <= sp0 && FramesOk(m, stack[..sp]) && m == mem[..highWater]
      invariant off == 0 && goal == Unwind(m, stack[..sp], budget)
      decreases sp
    {
      var top := stack[sp - 1].off;
      while stack[sp - 1].next < 4 && off == 0
        invariant FramesOk(m, stack[..sp]) && stack[sp - 1].off == top && m == mem[..highWater]
        invariant off == 0 ==> goal == Unwind(m, stack[..sp], budget)
        invariant off != 0 ==> goal == Resume(m, Check(m, off, top, sp, budget), stack[..sp])
        decreases 4 - stack[sp - 1].next
      {
        NextChild(m, stack[..sp], budget);
        ghost var frames := stack[..sp];
        assert frames[sp - 1] == stack[sp - 1];
        off := Word32(mem, top + 4 * stack[sp - 1].next);
        stack[sp - 1] := Frame(top, stack[sp - 1].next + 1);
        assert stack[..sp] == Bumped(frames);
      }
      if off != 0 {
        parent := top;
        return;
      }
      Popped(m, stack[..sp], budget);
      assert stack[..sp][..sp - 1] == stack[..sp - 1];
      sp := sp - 1;
    }
    assert stack[..0] == [];
    UnwindEmpty(m, budget);
  }

  /** `rgm_hash_map_validate_subtree`. It terminates on every input because each push costs budget. */
  method ValidateSubtree(mem: array<u8>, highWater: nat, root: u32, visits: nat) returns (ok: bool, budget: nat)
    requires highWater <= mem.Length
    ensures ok <==> Check(mem[..highWater], root, 0, 0, visits).Some?
    ensures ok ==> Check(mem[..highWater], root, 0, 0, visits) == Some(budget)
  {
    hide Check, CheckFrom, Unwind, Resume, Load32, FramesOk;
    ghost var m := mem[..highWater];
    ghost var goal := Check(m, root, 0, 0, visits);
    var stack := new Frame[MAX_DEPTH](_ => Frame(0, 0));
    var sp: nat, off: u32, parent: u32 := 0, root, 0;
    budget := visits;
    ResumeEmpty(m, goal);
    assert stack[..0] == [];
    while true
      invariant sp <= MAX_DEPTH && FramesOk(m, stack[..sp]) && m == mem[..highWater]
      invariant goal == Resume(m, Check(m, off, parent, sp, budget), stack[..sp])
      decreases budget
    {
      if off < CACHE_LINE || off <= parent || off % 8 != 0 || off + NODE_SIZE > highWater || budget == 0 || sp == MAX_DEPTH {
        Rejected(m, off, parent, sp, budget, stack[..sp]);
        return false, budget;
      }
      var keyLen := Word32(mem, off + 32);
      if keyLen > highWater - off - NODE_SIZE {
        Rejected(m, off, parent, sp, budget, stack[..sp]);
        return false, budget;
      }
      Pushed(m, stack[..sp], off, parent, budget);
      ghost var below := stack[..sp];
      budget := budget - 1;
      stack[sp] := Frame(off, 0);
      sp := sp + 1;
      assert stack[..sp] == below + [Frame(off, 0)];
      sp, off, parent := NextOffset(mem, highWater, stack, sp, budget);
      if sp == 0 {
        return true, budget;
      }
    }
  }

  lemma Rejected(m: Image, off: nat, parent: nat, depth: nat, budget: nat, frames: seq<Frame>)
    requires FramesOk(m, frames) && !Admits(m, off, parent, depth, budget)
    ensures Resume(m, Check(m, off, parent, depth, budget), frames) == None
  {
  }

  lemma ResumeEmpty(m: Image, r: Option<nat>)
    ensures FramesOk(m, []) && Resume(m, r, []) == r
  {
  }

  lemma UnwindEmpty(m: Image, budget: nat)
    ensures Unwind(m, [], budget) == Some(budget)
  {
  }
}
