/**
 The batched walks: 32 lanes, each following one key, refilled as soon as they finish.

 A `Query` is the map's image and index and the keys asked for; `Answer` is what one serial Get returns.
 The invariants say where each key is: not loaded yet, in exactly one lane, or done with its outputs
 written. They hold on every image that is safe to walk.
 */
module HashMapBatch {
  import opened Machine
  import opened Bytes
  import opened Descent
  import opened HashFunc
  import opened HashMapLayout
  import opened TrieShape
  import opened HashMapPut
  import opened HashMapState
  import HM = HashMap
  import Model = ArenaModel
  import opened Memory

  const LANES: nat := 32
  const IDLE: u32 := 0xFFFF_FFFF

  datatype Lane = Lane(key: u64, hful: u64, h: u64, cur: u32, idx: u32, rnd: u32)

  datatype Query = Query(m: Image, top: seq<u32>, keys: seq<u64>)

  predicate Askable(q: Query) {
    SafeRoots(q.m, q.top) && |q.keys| <= 0xFFFF_FFFF
  }

  /** One serial Get: the node's offset, or 0. */
  function Answer(q: Query, j: nat): nat
    requires Askable(q) && j < |q.keys|
  {
    Lookup(BYTE_KEYS, q.m, q.top, LE64(q.keys[j]))
  }

  // -----------------------------------------------------------------------------
  // Lanes.

  ghost predicate LaneOk(q: Query, lane: Lane, next: nat)
    requires Askable(q) && next <= |q.keys|
  {
    lane.idx != IDLE ==>
      && lane.idx < next
      && lane.key == q.keys[lane.idx] && lane.hful == HashU64(lane.key, WYP0)
      && (lane.cur == 0 || Safe(q.m, lane.cur))
      && Find(BYTE_KEYS, q.m, LE64(lane.key), lane.cur, Reg(lane.h, lane.rnd)) == Answer(q, lane.idx)
  }

  /** Every key below `next` is done or in exactly one lane, and a lane idles only when no key is left. */
  ghost predicate Placed(idx: seq<u32>, next: nat, count: nat, done: set<nat>) {
    && next <= count
    && (forall i: nat :: i < |idx| && idx[i] != IDLE ==> idx[i] !in done && idx[i] < next)
    && (forall i: nat, k: nat :: i < k < |idx| && idx[i] != IDLE ==> idx[i] != idx[k])
    && (forall i: nat :: i < |idx| && idx[i] == IDLE ==> next == count)
    && (forall j: nat :: j in done ==> j < next)
    && (forall j: nat :: j < next && j !in done ==> j in idx)
  }

  function Indices(lanes: seq<Lane>): (idx: seq<u32>)
    ensures |idx| == |lanes| && forall i :: 0 <= i < |idx| ==> idx[i] == lanes[i].idx
  {
    seq(|lanes|, i requires 0 <= i < |lanes| => lanes[i].idx)
  }

  ghost predicate LanesOk(q: Query, lanes: seq<Lane>, next: nat, done: set<nat>)
    requires Askable(q)
  {
    && Placed(Indices(lanes), next, |q.keys|, done)
    && forall i: nat :: i < |lanes| ==> LaneOk(q, lanes[i], next)
  }

  /** A lane freshly loaded with key `j`. */
  ghost predicate Loaded(q: Query, lane: Lane, j: nat)
    requires Askable(q) && j < |q.keys|
  {
    lane.idx == j && LaneOk(q, lane, j + 1)
  }

  lemma LoadedOk(q: Query, lane: Lane, j: nat)
    requires Askable(q) && j < |q.keys|
    requires lane.key == q.keys[j] && lane.hful == HashU64(lane.key, WYP0) && lane.idx == j && lane.rnd == 0
    requires lane.h == lane.hful * 4096 % TWO_64 && lane.cur == q.top[lane.hful / 0x10_0000_0000_0000]
    ensures Loaded(q, lane, j)
  {
    hide Find, Safe, HashU64, LE64, Wyhash;
    WordHash(lane.key);
  }

  lemma IndicesUpdate(lanes: seq<Lane>, i: nat, lane: Lane)
    requires i < |lanes|
    ensures Indices(lanes[i := lane]) == Indices(lanes)[i := lane.idx]
  {
  }

  /** One level down. */
  lemma Descended(q: Query, lanes: seq<Lane>, next: nat, done: set<nat>, i: nat, lane: Lane)
    requires Askable(q) && LanesOk(q, lanes, next, done) && i < |lanes|
    requires lane.idx == lanes[i].idx && LaneOk(q, lane, next)
    ensures LanesOk(q, lanes[i := lane], next, done)
  {
    hide LaneOk, Askable, Placed;
    IndicesUpdate(lanes, i, lane);
    assert Indices(lanes)[i := lane.idx] == Indices(lanes);
  }

  lemma PlaceNext(idx: seq<u32>, next: nat, count: nat, done: set<nat>, i: nat)
    requires Placed(idx, next, count, done) && i < |idx| && idx[i] != IDLE && next < count < 0x1_0000_0000
    ensures Placed(idx[i := next], next + 1, count, done + {idx[i]})
  {
    var (ix, d) := (idx[i := next], done + {idx[i]});
    forall k: nat | k < |ix| && ix[k] != IDLE ensures ix[k] !in d && ix[k] < next + 1 {
      if k < i { assert idx[k] != idx[i]; } else if k > i { assert idx[i] != idx[k]; }
    }
    forall j: nat | j < next + 1 && j !in d ensures j in ix {
      if j == next { assert ix[i] == j; } else { KeptElsewhere(idx, i, next, j); }
    }
  }

  lemma PlaceNone(idx: seq<u32>, next: nat, done: set<nat>, i: nat)
    requires Placed(idx, next, next, done) && i < |idx| && idx[i] != IDLE && next < 0x1_0000_0000
    ensures Placed(idx[i := IDLE], next, next, done + {idx[i]})
  {
    var (ix, d) := (idx[i := IDLE], done + {idx[i]});
    forall k: nat | k < |ix| && ix[k] != IDLE ensures ix[k] !in d && ix[k] < next {
      if k < i { assert idx[k] != idx[i]; } else if k > i { assert idx[i] != idx[k]; }
    }
    forall j: nat | j < next && j !in d ensures j in ix {
      KeptElsewhere(idx, i, IDLE, j);
    }
  }

  lemma KeptElsewhere(idx: seq<u32>, i: nat, x: u32, j: nat)
    requires i < |idx| && j in idx && j != idx[i]
    ensures j in idx[i := x]
  {
    var k: nat :| k < |idx| && idx[k] == j;
    assert idx[i := x][k] == j;
  }

  /** Key done, lane refilled with the next key. */
  lemma Refilled(q: Query, lanes: seq<Lane>, next: nat, done: set<nat>, i: nat, lane: Lane)
    requires Askable(q) && LanesOk(q, lanes, next, done) && i < |lanes| && lanes[i].idx != IDLE
    requires next < |q.keys| && Loaded(q, lane, next)
    ensures LanesOk(q, lanes[i := lane], next + 1, done + {lanes[i].idx})
  {
    LaneGrows(q, lanes, next);
    hide LaneOk, Placed;
    IndicesUpdate(lanes, i, lane);
    PlaceNext(Indices(lanes), next, |q.keys|, done, i);
  }

  lemma LaneGrows(q: Query, lanes: seq<Lane>, next: nat)
    requires Askable(q) && next < |q.keys|
    requires forall i: nat :: i < |lanes| ==> LaneOk(q, lanes[i], next)
    ensures forall i: nat :: i < |lanes| ==> LaneOk(q, lanes[i], next + 1)
  {
    hide Find, Safe, HashU64, LE64, Answer;
    forall i: nat | i < |lanes| ensures LaneOk(q, lanes[i], next + 1) { assert LaneOk(q, lanes[i], next); }
  }

  /** Key done, no key left. */
  lemma Retired(q: Query, lanes: seq<Lane>, next: nat, done: set<nat>, i: nat)
    requires Askable(q) && LanesOk(q, lanes, next, done) && i < |lanes| && lanes[i].idx != IDLE
    requires next == |q.keys|
    ensures LanesOk(q, lanes[i := lanes[i].(idx := IDLE)], next, done + {lanes[i].idx})
  {
    var idle := lanes[i].(idx := IDLE);
    assert LaneOk(q, idle, next);
    hide LaneOk, Placed;
    IndicesUpdate(lanes, i, idle);
    PlaceNone(Indices(lanes), next, done, i);
  }

  /** No lane active: every key is done. */
  lemma AllDone(q: Query, lanes: seq<Lane>, next: nat, done: set<nat>)
    requires Askable(q) && LanesOk(q, lanes, next, done) && |lanes| > 0
    requires forall i: nat :: i < |lanes| ==> lanes[i].idx == IDLE
    ensures next == |q.keys|
    ensures forall j: nat :: j in done <==> j < |q.keys|
  {
    hide LaneOk;
    assert Indices(lanes)[0] == IDLE;
    forall j: nat | j < |q.keys| ensures j in done {
    }
  }

  // -----------------------------------------------------------------------------
  // Progress.

  function Sum(f: Lane -> nat, lanes: seq<Lane>): nat {
    if lanes == [] then 0 else Sum(f, lanes[..|lanes| - 1]) + f(lanes[|lanes| - 1])
  }

  lemma {:induction false} SumUpdate(f: Lane -> nat, lanes: seq<Lane>, i: nat, lane: Lane)
    requires i < |lanes|
    ensures Sum(f, lanes[i := lane]) == Sum(f, lanes) - f(lanes[i]) + f(lane)
    decreases |lanes|
  {
    var n := |lanes| - 1;
    if i < n {
      SumUpdate(f, lanes[..n], i, lane);
      assert lanes[i := lane][..n] == lanes[..n][i := lane];
    } else {
      assert lanes[i := lane][..n] == lanes[..n];
    }
  }

  lemma {:induction false} SumZero(f: Lane -> nat, lanes: seq<Lane>)
    ensures Sum(f, lanes) == 0 <==> forall i: nat :: i < |lanes| ==> f(lanes[i]) == 0
    decreases |lanes|
  {
    if lanes != [] {
      var n := |lanes| - 1;
      SumZero(f, lanes[..n]);
      assert forall i: nat :: i < n ==> lanes[..n][i] == lanes[i];
      if forall i: nat :: i < n ==> f(lanes[..n][i]) == 0 {
        assert forall i: nat :: i < n ==> f(lanes[i]) == 0;
      } else {
        var i: nat :| i < n && f(lanes[..n][i]) != 0;
        assert f(lanes[i]) != 0;
      }
    }
  }

  /** Counts active lanes. */
  function Active(): Lane -> nat {
    (lane: Lane) => if lane.idx == IDLE then 0 else 1
  }

  /** Bytes that a lane's walk can still climb, plus one for being active. */
  function Climb(limit: nat): Lane -> nat {
    (lane: Lane) => if lane.idx == IDLE then 0 else if lane.cur == 0 || lane.cur >= limit then 1 else 1 + limit - lane.cur
  }

  function Work(q: Query, lanes: seq<Lane>, next: nat): nat
    requires next <= |q.keys|
  {
    (|q.keys| - next) * (|q.m| + 2) + Sum(Climb(|q.m|), lanes)
  }

  lemma WorkDescends(q: Query, lanes: seq<Lane>, next: nat, i: nat, lane: Lane)
    requires next <= |q.keys| && i < |lanes| && lanes[i].idx != IDLE && lane.idx != IDLE
    requires 0 < lanes[i].cur < |q.m| && (lane.cur == 0 || lane.cur > lanes[i].cur)
    ensures Work(q, lanes[i := lane], next) < Work(q, lanes, next)
    ensures Sum(Active(), lanes[i := lane]) == Sum(Active(), lanes)
  {
    SumUpdate(Climb(|q.m|), lanes, i, lane);
    SumUpdate(Active(), lanes, i, lane);
  }

  lemma WorkRefills(q: Query, lanes: seq<Lane>, next: nat, i: nat, lane: Lane)
    requires next < |q.keys| && i < |lanes| && lanes[i].idx != IDLE && lane.idx != IDLE
    ensures Work(q, lanes[i := lane], next + 1) < Work(q, lanes, next)
    ensures Sum(Active(), lanes[i := lane]) == Sum(Active(), lanes)
  {
    SumUpdate(Climb(|q.m|), lanes, i, lane);
    SumUpdate(Active(), lanes, i, lane);
    OneLess(|q.keys| - next, |q.m| + 2);
  }

  lemma OneLess(n: int, w: int)
    ensures n * w == (n - 1) * w + w
  {
  }

  lemma WorkRetires(q: Query, lanes: seq<Lane>, next: nat, i: nat, lane: Lane)
    requires next <= |q.keys| && i < |lanes| && lanes[i].idx != IDLE && lane.idx == IDLE
    ensures Work(q, lanes[i := lane], next) < Work(q, lanes, next)
    ensures Sum(Active(), lanes[i := lane]) == Sum(Active(), lanes) - 1
  {
    SumUpdate(Climb(|q.m|), lanes, i, lane);
    SumUpdate(Active(), lanes, i, lane);
  }

  // -----------------------------------------------------------------------------
  // Outputs.

  ghost function Hits(q: Query, done: set<nat>): set<nat>
    requires Askable(q)
  {
    set j | j in done && j < |q.keys| && Answer(q, j) != 0
  }

  /** Values of done keys that were found; everything else as it was. */
  ghost predicate ValuesOk(q: Query, done: set<nat>, before: seq<u64>, now: seq<u64>)
    requires Askable(q)
  {
    && |now| == |before|
    && forall j: nat :: j < |now| ==>
         if j in done && j < |q.keys| && Answer(q, j) != 0
         then Answer(q, j) + 40 <= |q.m| && now[j] == Value(q.m, Answer(q, j))
         else now[j] == before[j]
  }

  /** Found flags: cleared when a key is loaded, set when it is done and was found. */
  ghost predicate FoundOk(q: Query, done: set<nat>, next: nat, writes: bool, before: seq<bool>, now: seq<bool>)
    requires Askable(q)
  {
    && |now| == |before|
    && forall j: nat :: j < |now| ==>
         now[j] == if j in done && j < |q.keys| then writes && Answer(q, j) != 0 else if j < next then false else before[j]
  }

  /** Key `j` gets its value and flag if it was found. */
  ghost predicate Emitted(q: Query, j: nat, writes: bool, v: seq<u64>, f: seq<bool>, v': seq<u64>, f': seq<bool>)
    requires Askable(q) && j < |q.keys|
  {
    var r := Answer(q, j);
    && (r != 0 ==> r + 40 <= |q.m|)
    && v' == (if r != 0 && j < |v| then v[j := Value(q.m, r)] else v)
    && f' == (if writes && r != 0 && j < |f| then f[j := true] else f)
  }

  lemma HitsAdd(q: Query, done: set<nat>, j: nat)
    requires Askable(q) && j < |q.keys| && j !in done
    ensures |Hits(q, done + {j})| == |Hits(q, done)| + if Answer(q, j) != 0 then 1 else 0
  {
    hide Answer, Askable;
    if Answer(q, j) != 0 {
      assert Hits(q, done + {j}) == Hits(q, done) + {j};
    } else {
      assert Hits(q, done + {j}) == Hits(q, done);
    }
  }

  lemma ValuesDone(q: Query, done: set<nat>, before: seq<u64>, now: seq<u64>, j: nat)
    requires Askable(q) && ValuesOk(q, done, before, now) && j < |q.keys| && j !in done
    requires Answer(q, j) != 0 && j < |now| ==> Answer(q, j) + 40 <= |q.m|
    ensures ValuesOk(q, done + {j}, before,
              if Answer(q, j) != 0 && j < |now| then now[j := Value(q.m, Answer(q, j))] else now)
  {
    hide Answer, Askable, Value;
  }

  lemma FoundDone(q: Query, done: set<nat>, next: nat, writes: bool, before: seq<bool>, now: seq<bool>, j: nat)
    requires Askable(q) && FoundOk(q, done, next, writes, before, now) && j < |q.keys| && j < next && j !in done
    ensures FoundOk(q, done + {j}, next, writes, before,
              if writes && Answer(q, j) != 0 && j < |now| then now[j := true] else now)
  {
    hide Answer, Askable;
  }

  lemma FoundLoaded(q: Query, done: set<nat>, next: nat, writes: bool, before: seq<bool>, now: seq<bool>)
    requires Askable(q) && FoundOk(q, done, next, writes, before, now) && (forall j: nat :: j in done ==> j < next)
    ensures FoundOk(q, done, next + 1, writes, before, if next < |now| then now[next := false] else now)
  {
    hide Answer, Askable;
  }

  /** What a lane sees at its current node. */
  lemma LaneSees(q: Query, lane: Lane, next: nat)
    requires Askable(q) && next <= |q.keys| && LaneOk(q, lane, next) && lane.idx != IDLE
    ensures lane.idx < |q.keys|
    ensures lane.cur == 0 ==> Answer(q, lane.idx) == 0
    ensures lane.cur != 0 ==>
      && Fits(q.m, lane.cur) && lane.hful == BYTE_KEYS.digest(LE64(lane.key))
      && lane.h / 0x4000_0000_0000_0000 < 4
      && (Hit(BYTE_KEYS, q.m, lane.cur, LE64(lane.key)) ==> Answer(q, lane.idx) == lane.cur)
      && (!Hit(BYTE_KEYS, q.m, lane.cur, LE64(lane.key)) ==> LaneOk(q, Deeper(q.m, lane), next))
  {
    hide Hit, Safe, Find, Answer, Load32, HashU64, LE64, Wyhash, ReseedSeed, BYTE_KEYS;
    WordHash(lane.key);
    if lane.cur == 0 {
      FindEmpty(BYTE_KEYS, q.m, LE64(lane.key), Reg(lane.h, lane.rnd));
    } else {
      FindStep(BYTE_KEYS, q.m, LE64(lane.key), lane.cur, Reg(lane.h, lane.rnd));
    }
  }

  /** The lane after descending one level. */
  function Deeper(m: Image, lane: Lane): Lane
    requires Fits(m, lane.cur) && lane.h / 0x4000_0000_0000_0000 < 4
  {
    var h := lane.h * 4 % TWO_64;
    var rnd := if h == 0 then (lane.rnd + 1) % TWO_32 else lane.rnd;
    lane.(cur := Link(m, lane.cur, lane.h / 0x4000_0000_0000_0000),
          h := if h == 0 then HashU64(lane.key, ReseedSeed(rnd)) else h,
          rnd := rnd)
  }

  // -----------------------------------------------------------------------------
  // The loops.

  ghost function Asked(hm: HM.HashMap, keys: seq<u64>): Query
    requires hm.Bound()
    reads hm, hm.arena, hm.arena.mem, hm.top
  {
    Query(hm.Image(), hm.top[..], keys)
  }

  /** An output array that the caller may leave out. */
  ghost function Output<T>(a: array?<T>): seq<T>
    reads a
  {
    if a == null then [] else a[..]
  }

  method LoadLane(hm: HM.HashMap, keys: seq<u64>, j: u32) returns (lane: Lane)
    requires hm.Readable() && hm.H == BYTE_KEYS && j < |keys| <= 0xFFFF_FFFF
    ensures Loaded(Asked(hm, keys), lane, j)
  {
    hide Loaded, HashU64, SafeRoots;
    var key := keys[j];
    var hful := HashU64(key, WYP0);
    lane := Lane(key, hful, hful * 4096 % TWO_64, hm.top[hful / 0x10_0000_0000_0000], j, 0);
    LoadedOk(Asked(hm, keys), lane, j);
  }

  /** The state between two turns: lanes, counters and outputs. */
  ghost predicate BatchOk(q: Query, lanes: seq<Lane>, next: nat, live: nat, hits: nat, done: set<nat>,
                          writes: bool, v0: seq<u64>, v: seq<u64>, f0: seq<bool>, f: seq<bool>)
    requires Askable(q)
  {
    && |lanes| == LANES && LanesOk(q, lanes, next, done)
    && live == Sum(Active(), lanes)
    && hits == |Hits(q, done)|
    && ValuesOk(q, done, v0, v)
    && FoundOk(q, done, next, writes, f0, f)
  }

  /** Arrays that the loops write do not overlap the map or each other. */
  ghost predicate Apart(hm: HM.HashMap, lanes: array<Lane>, values: array?<u64>, found: array?<bool>)
    reads hm
  {
    && (lanes as object) !in {hm.arena.mem as object, hm.top as object}
    && (values != null ==> (values as object) !in {hm.arena.mem as object, hm.top as object, lanes as object})
    && (found != null ==> (found as object) !in {hm.arena.mem as object, hm.top as object, lanes as object})
    && (values != null && found != null ==> (values as object) != (found as object))
  }

  /** Key `j` is done. */
  lemma KeyDone(q: Query, next: nat, hits: nat, done: set<nat>,
                writes: bool, v0: seq<u64>, v: seq<u64>, f0: seq<bool>, f: seq<bool>, j: nat, v': seq<u64>, f': seq<bool>)
    requires Askable(q) && j < next <= |q.keys| && j !in done
    requires hits == |Hits(q, done)| && ValuesOk(q, done, v0, v) && FoundOk(q, done, next, writes, f0, f)
    requires Emitted(q, j, writes, v, f, v', f')
    ensures var d := done + {j};
      && hits + (if Answer(q, j) != 0 then 1 else 0) == |Hits(q, d)|
      && ValuesOk(q, d, v0, v') && FoundOk(q, d, next, writes, f0, f')
  {
    hide Answer, Askable, Value, ValuesOk, FoundOk, Hits;
    HitsAdd(q, done, j);
    ValuesDone(q, done, v0, v, j);
    FoundDone(q, done, next, writes, f0, f, j);
  }

  /** A finished key: its value and flag if it was found. */
  method Finish(hm: HM.HashMap, keys: seq<u64>, lane: Lane, values: array?<u64>, found: array?<bool>)
    requires hm.Readable() && |keys| <= 0xFFFF_FFFF && lane.idx < |keys|
    requires values != null ==> |keys| <= values.Length && (values as object) !in {hm.arena.mem as object, hm.top as object}
    requires found != null ==> |keys| <= found.Length && (found as object) !in {hm.arena.mem as object, hm.top as object}
    requires values != null && found != null ==> (values as object) != (found as object)
    requires lane.cur != 0 ==> Fits(hm.Image(), lane.cur)
    modifies values, found
    ensures hm.Readable() && hm.Image() == old(hm.Image()) && hm.top[..] == old(hm.top[..])
    ensures Output(values) ==
      if lane.cur != 0 && values != null then old(Output(values))[lane.idx := Value(hm.Image(), lane.cur)] else old(Output(values))
    ensures Output(found) ==
      if lane.cur != 0 && values != null && found != null then old(Output(found))[lane.idx := true] else old(Output(found))
  {
    hide SafeRoots, Load32;
    if lane.cur != 0 && values != null {
      values[lane.idx] := Word64(hm.arena.mem, lane.cur + 24);
      if found != null {
        found[lane.idx] := true;
      }
    }
  }

  /** One level down for lane `i`. */
  method Descend(hm: HM.HashMap, lanes: array<Lane>, i: nat)
    requires hm.Readable() && hm.H == BYTE_KEYS && i < lanes.Length && (lanes as object) !in {hm.arena.mem as object, hm.top as object}
    requires Fits(hm.Image(), lanes[i].cur) && lanes[i].h / 0x4000_0000_0000_0000 < 4
    modifies lanes
    ensures lanes[..] == old(lanes[..])[i := Deeper(hm.Image(), old(lanes[i]))]
  {
    hide SafeRoots, Load32, HashU64, ReseedSeed;
    var lane := lanes[i];
    var c := Word32(hm.arena.mem, lane.cur + 4 * (lane.h / 0x4000_0000_0000_0000));
    var h := lane.h * 4 % TWO_64;
    var rnd := lane.rnd;
    if h == 0 {
      rnd := (rnd + 1) % TWO_32;
      h := HashU64(lane.key, ReseedSeed(rnd));
    }
    lanes[i] := lane.(cur := c, h := h, rnd := rnd);
  }

  /** Every outcome of a turn keeps the invariant and makes progress. */
  lemma TurnDescends(q: Query, lanes: seq<Lane>, next: nat, live: nat, hits: nat, done: set<nat>,
                     writes: bool, v0: seq<u64>, v: seq<u64>, f0: seq<bool>, f: seq<bool>, i: nat)
    requires Askable(q) && BatchOk(q, lanes, next, live, hits, done, writes, v0, v, f0, f) && i < |lanes| && lanes[i].idx != IDLE
    requires lanes[i].cur != 0 && next <= |q.keys|
    requires LaneOk(q, lanes[i], next) && Fits(q.m, lanes[i].cur) && lanes[i].h / 0x4000_0000_0000_0000 < 4
    requires LaneOk(q, Deeper(q.m, lanes[i]), next)
    ensures BatchOk(q, lanes[i := Deeper(q.m, lanes[i])], next, live, hits, done, writes, v0, v, f0, f)
    ensures Work(q, lanes[i := Deeper(q.m, lanes[i])], next) < Work(q, lanes, next)
  {
    hide Answer, Askable, Value, ValuesOk, FoundOk, Hits, Sum, LaneOk, LanesOk, Work;
    Descended(q, lanes, next, done, i, Deeper(q.m, lanes[i]));
    DeeperClimbs(q, lanes, next, i);
  }

  /** The outputs and counters after the key of lane `i` is done. */
  ghost predicate KeyCounted(q: Query, hits: nat, done: set<nat>, j: nat, hits': nat, done': set<nat>,
                             writes: bool, v: seq<u64>, f: seq<bool>, v': seq<u64>, f': seq<bool>)
    requires Askable(q)
  {
    && j < |q.keys|
    && hits' == hits + (if Answer(q, j) != 0 then 1 else 0)
    && done' == done + {j}
    && Emitted(q, j, writes, v, f, v', f')
  }

  lemma TurnRefills(q: Query, lanes: seq<Lane>, next: nat, live: nat, hits: nat, done: set<nat>,
                    writes: bool, v0: seq<u64>, v: seq<u64>, f0: seq<bool>, f: seq<bool>, i: nat,
                    lane: Lane, hits': nat, done': set<nat>, v': seq<u64>, f': seq<bool>, f'': seq<bool>)
    requires Askable(q) && i < |lanes| && lanes[i].idx != IDLE && next < |q.keys| && Loaded(q, lane, next)
    requires KeyCounted(q, hits, done, lanes[i].idx, hits', done', writes, v, f, v', f')
    requires f'' == if next < |f'| then f'[next := false] else f'
    requires BatchOk(q, lanes, next, live, hits, done, writes, v0, v, f0, f)
    ensures BatchOk(q, lanes[i := lane], next + 1, live, hits', done', writes, v0, v', f0, f'')
    ensures Work(q, lanes[i := lane], next + 1) < Work(q, lanes, next)
  {
    hide Answer, Askable, Value, ValuesOk, FoundOk, Hits, Sum, LaneOk, LanesOk, Work, Loaded, Emitted;
    LaneFacts(q, lanes, next, done, i);
    KeyDone(q, next, hits, done, writes, v0, v, f0, f, lanes[i].idx, v', f');
    Refilled(q, lanes, next, done, i, lane);
    FoundLoaded(q, done', next, writes, f0, f');
    LoadedActive(q, lane, next);
    WorkRefills(q, lanes, next, i, lane);
  }

  lemma TurnRetires(q: Query, lanes: seq<Lane>, next: nat, live: nat, hits: nat, done: set<nat>,
                    writes: bool, v0: seq<u64>, v: seq<u64>, f0: seq<bool>, f: seq<bool>, i: nat,
                    lane: Lane, hits': nat, done': set<nat>, v': seq<u64>, f': seq<bool>)
    requires Askable(q) && i < |lanes| && lanes[i].idx != IDLE && next == |q.keys| && lane == lanes[i].(idx := IDLE)
    requires KeyCounted(q, hits, done, lanes[i].idx, hits', done', writes, v, f, v', f')
    requires BatchOk(q, lanes, next, live, hits, done, writes, v0, v, f0, f)
    ensures live > 0
    ensures BatchOk(q, lanes[i := lane], next, live - 1, hits', done', writes, v0, v', f0, f')
    ensures Work(q, lanes[i := lane], next) < Work(q, lanes, next)
  {
    hide Answer, Askable, Value, ValuesOk, FoundOk, Hits, Sum, LaneOk, LanesOk, Work, Emitted;
    LaneFacts(q, lanes, next, done, i);
    KeyDone(q, next, hits, done, writes, v0, v, f0, f, lanes[i].idx, v', f');
    Retired(q, lanes, next, done, i);
    WorkRetires(q, lanes, next, i, lane);
  }

  lemma LaneFacts(q: Query, lanes: seq<Lane>, next: nat, done: set<nat>, i: nat)
    requires Askable(q) && LanesOk(q, lanes, next, done) && i < |lanes|
    ensures next <= |q.keys| && LaneOk(q, lanes[i], next)
    ensures lanes[i].idx != IDLE ==> lanes[i].idx < next && lanes[i].idx !in done
    ensures forall j: nat :: j in done ==> j < next
  {
    assert Indices(lanes)[i] == lanes[i].idx;
  }

  lemma DeeperClimbs(q: Query, lanes: seq<Lane>, next: nat, i: nat)
    requires Askable(q) && next <= |q.keys| && i < |lanes| && lanes[i].idx != IDLE && LaneOk(q, lanes[i], next)
    requires lanes[i].cur != 0 && Fits(q.m, lanes[i].cur) && lanes[i].h / 0x4000_0000_0000_0000 < 4
    ensures Work(q, lanes[i := Deeper(q.m, lanes[i])], next) < Work(q, lanes, next)
    ensures Sum(Active(), lanes[i := Deeper(q.m, lanes[i])]) == Sum(Active(), lanes)
  {
    hide Safe, Find, Answer, Load32, HashU64, ReseedSeed, Work, Sum;
    SafeStep(q.m, lanes[i].cur);
    WorkDescends(q, lanes, next, i, Deeper(q.m, lanes[i]));
  }

  lemma LoadedActive(q: Query, lane: Lane, j: nat)
    requires Askable(q) && j < |q.keys| && Loaded(q, lane, j)
    ensures lane.idx == j && lane.idx != IDLE
  {
  }

  /** The key of lane `i` is finished: write its outputs and load the next key, or retire the lane. */
  method Complete(hm: HM.HashMap, keys: seq<u64>, lanes: array<Lane>, i: nat, values: array?<u64>, found: array?<bool>,
                  next: u32, live: nat, hits: nat, ghost done: set<nat>, ghost v0: seq<u64>, ghost f0: seq<bool>)
    returns (next': u32, live': nat, hits': nat, ghost done': set<nat>)
    requires hm.Readable() && hm.H == BYTE_KEYS && |keys| <= 0xFFFF_FFFF && Apart(hm, lanes, values, found)
    requires values != null ==> |keys| <= values.Length
    requires found != null ==> |keys| <= found.Length
    requires next <= |keys| && i < lanes.Length && lanes[i].idx != IDLE && lanes[i].idx < |keys|
    requires Askable(Asked(hm, keys)) && Answer(Asked(hm, keys), lanes[i].idx) == lanes[i].cur
    requires lanes[i].cur != 0 ==> Fits(hm.Image(), lanes[i].cur)
    requires BatchOk(Asked(hm, keys), lanes[..], next, live, hits, done, values != null, v0, Output(values), f0, Output(found))
    modifies lanes, values, found
    ensures hm.Readable() && Asked(hm, keys) == old(Asked(hm, keys)) && next' <= |keys|
    ensures BatchOk(Asked(hm, keys), lanes[..], next', live', hits', done', values != null, v0, Output(values), f0, Output(found))
    ensures Work(Asked(hm, keys), lanes[..], next') < old(Work(Asked(hm, keys), lanes[..], next))
  {
    hide Answer, Askable, Value, SafeRoots, Work, Load32, Loaded, BatchOk, LaneOk, Fits;
    ghost var (q, ls, v, f) := (Asked(hm, keys), lanes[..], Output(values), Output(found));
    var lane := lanes[i];
    if lane.cur != 0 { FitsRoom(q.m, lane.cur); }
    Finish(hm, keys, lane, values, found);
    hits' := if lane.cur != 0 then hits + 1 else hits;
    done' := done + {lane.idx};
    ghost var f' := Output(found);
    if next < |keys| {
      var loaded := LoadLane(hm, keys, next);
      Reload(lanes, i, loaded, found, next);
      TurnRefills(q, ls, next, live, hits, done, values != null, v0, v, f0, f, i, loaded, hits', done', Output(values), f', Output(found));
      next', live' := next + 1, live;
    } else {
      var idle := lane.(idx := IDLE);
      TurnRetires(q, ls, next, live, hits, done, values != null, v0, v, f0, f, i, idle, hits', done', Output(values), f');
      lanes[i] := idle;
      assert lanes[..] == ls[i := idle];
      next', live' := next, live - 1;
    }
  }

  /** A lane's turn: descend one level, or finish its key. */
  method Turn(hm: HM.HashMap, keys: seq<u64>, lanes: array<Lane>, i: nat, values: array?<u64>, found: array?<bool>,
              next: u32, live: nat, hits: nat, ghost done: set<nat>, ghost v0: seq<u64>, ghost f0: seq<bool>)
    returns (next': u32, live': nat, hits': nat, ghost done': set<nat>)
    requires hm.Readable() && hm.H == BYTE_KEYS && |keys| <= 0xFFFF_FFFF && Apart(hm, lanes, values, found)
    requires values != null ==> |keys| <= values.Length
    requires found != null ==> |keys| <= found.Length
    requires Askable(Asked(hm, keys))
    requires BatchOk(Asked(hm, keys), lanes[..], next, live, hits, done, values != null, v0, Output(values), f0, Output(found))
    requires next <= |keys| && i < lanes.Length && lanes[i].idx != IDLE
    modifies lanes, values, found
    ensures hm.Readable() && Asked(hm, keys) == old(Asked(hm, keys)) && next' <= |keys|
    ensures BatchOk(Asked(hm, keys), lanes[..], next', live', hits', done', values != null, v0, Output(values), f0, Output(found))
    ensures Work(Asked(hm, keys), lanes[..], next') < old(Work(Asked(hm, keys), lanes[..], next))
  {
    hide Answer, Askable, Value, SafeRoots, Work, Load32, HashU64, BYTE_KEYS, ReseedSeed, Loaded, BatchOk, Hit,
         LaneOk, Fits;
    ghost var (q, ls) := (Asked(hm, keys), lanes[..]);
    var lane := lanes[i];
    BatchLane(q, ls, next, live, hits, done, values != null, v0, Output(values), f0, Output(found), i);
    LaneSees(q, lane, next);
    if lane.cur != 0 {
      var hit := hm.MatchesU64(lane.cur, lane.hful, lane.key);
      if !hit {
        TurnDescends(q, ls, next, live, hits, done, values != null, v0, Output(values), f0, Output(found), i);
        Descend(hm, lanes, i);
        return next, live, hits, done;
      }
    }
    next', live', hits', done' := Complete(hm, keys, lanes, i, values, found, next, live, hits, done, v0, f0);
  }

  method Reload(lanes: array<Lane>, i: nat, lane: Lane, found: array?<bool>, j: nat)
    requires i < lanes.Length && (found != null ==> j < found.Length && (found as object) != (lanes as object))
    modifies lanes, found
    ensures lanes[..] == old(lanes[..])[i := lane]
    ensures Output(found) == if j < |old(Output(found))| then old(Output(found))[j := false] else old(Output(found))
  {
    lanes[i] := lane;
    if found != null {
      found[j] := false;
    }
  }

  lemma BatchLane(q: Query, lanes: seq<Lane>, next: nat, live: nat, hits: nat, done: set<nat>,
                  writes: bool, v0: seq<u64>, v: seq<u64>, f0: seq<bool>, f: seq<bool>, i: nat)
    requires Askable(q) && BatchOk(q, lanes, next, live, hits, done, writes, v0, v, f0, f) && i < |lanes|
    ensures next <= |q.keys| && LaneOk(q, lanes[i], next)
  {
    hide LaneOk;
  }

  lemma FitsRoom(m: Image, off: nat)
    requires Fits(m, off)
    ensures off + 40 <= |m|
  {
  }

  /** Before any lane is loaded. */
  lemma NothingDone(q: Query, writes: bool, v0: seq<u64>, f0: seq<bool>)
    requires Askable(q)
    ensures LanesOk(q, [], 0, {}) && Sum(Active(), []) == 0 && |Hits(q, {})| == 0
    ensures ValuesOk(q, {}, v0, v0) && FoundOk(q, {}, 0, writes, f0, f0)
  {
  }

  lemma PlaceFirst(idx: seq<u32>, next: nat, count: nat)
    requires Placed(idx, next, count, {}) && count < 0x1_0000_0000
    ensures next < count ==> Placed(idx + [next], next + 1, count, {})
    ensures next == count ==> Placed(idx + [IDLE], next, count, {})
  {
    if next < count {
      forall j: nat | j < next + 1 ensures j in idx + [next] {
      }
    }
  }

  /** One more lane set up: loaded while keys remain, idle otherwise. */
  lemma SetUp(q: Query, lanes: seq<Lane>, next: nat, lane: Lane)
    requires Askable(q) && LanesOk(q, lanes, next, {})
    requires if next < |q.keys| then Loaded(q, lane, next) else lane.idx == IDLE
    ensures LanesOk(q, lanes + [lane], if next < |q.keys| then next + 1 else next, {})
    ensures Sum(Active(), lanes + [lane]) == Sum(Active(), lanes) + if next < |q.keys| then 1 else 0
  {
    if next < |q.keys| {
      LaneGrows(q, lanes, next);
      LoadedActive(q, lane, next);
    }
    assert next == |q.keys| ==> LaneOk(q, lane, next);
    hide LaneOk, Placed;
    PlaceFirst(Indices(lanes), next, |q.keys|);
    assert Indices(lanes + [lane]) == Indices(lanes) + [lane.idx];
    assert (lanes + [lane])[..|lanes|] == lanes;
  }

  /** When no lane is active, the outputs are those of one serial Get per key. */
  lemma BatchDone(q: Query, lanes: seq<Lane>, next: nat, hits: nat, done: set<nat>,
                  writes: bool, v0: seq<u64>, v: seq<u64>, f0: seq<bool>, f: seq<bool>)
    requires Askable(q) && BatchOk(q, lanes, next, 0, hits, done, writes, v0, v, f0, f)
    ensures Answered(q, hits, writes, v0, v, f0, f)
  {
    hide Answer, Askable, Value, LaneOk, Sum;
    SumZero(Active(), lanes);
    AllIdle(lanes);
    AllDone(q, lanes, next, done);
    assert forall j: nat :: j in Hits(q, done) <==> j < |q.keys| && Answer(q, j) != 0;
  }

  lemma AllIdle(lanes: seq<Lane>)
    requires forall i: nat :: i < |lanes| ==> Active()(lanes[i]) == 0
    ensures forall i: nat :: i < |lanes| ==> lanes[i].idx == IDLE
  {
    forall i: nat | i < |lanes| ensures lanes[i].idx == IDLE {
      assert Active()(lanes[i]) == 0;
    }
  }

  /** The batch's whole result, key by key. */
  ghost predicate Answered(q: Query, hits: nat, writes: bool, v0: seq<u64>, v: seq<u64>, f0: seq<bool>, f: seq<bool>)
    requires Askable(q)
  {
    && |v| == |v0| && |f| == |f0|
    && (forall j: nat :: j < |v| ==>
          if j < |q.keys| && Answer(q, j) != 0
          then Answer(q, j) + 40 <= |q.m| && v[j] == Value(q.m, Answer(q, j))
          else v[j] == v0[j])
    && (forall j: nat :: j < |f| ==> f[j] == if j < |q.keys| then writes && Answer(q, j) != 0 else f0[j])
    && exists found: set<nat> ::
         (forall j: nat :: j in found <==> j < |q.keys| && Answer(q, j) != 0) && hits == |found|
  }

  /** The first loads. */
  method SetUpLanes(hm: HM.HashMap, keys: seq<u64>, found: array?<bool>,
                    ghost writes: bool) returns (lanes: array<Lane>, next: u32, live: nat)
    requires hm.Readable() && hm.H == BYTE_KEYS && |keys| <= 0xFFFF_FFFF && Askable(Asked(hm, keys))
    requires found != null ==> |keys| <= found.Length && (found as object) !in {hm.arena.mem as object, hm.top as object}
    modifies found
    ensures hm.Readable() && Asked(hm, keys) == old(Asked(hm, keys)) && next <= |keys|
    ensures (lanes as object) !in {hm.arena.mem as object, hm.top as object} && (found != null ==> (found as object) != (lanes as object))
    ensures fresh(lanes) && lanes.Length == LANES
    ensures LanesOk(Asked(hm, keys), lanes[..], next, {}) && live == Sum(Active(), lanes[..])
    ensures FoundOk(Asked(hm, keys), {}, next, writes, old(Output(found)), Output(found))
  {
    hide Answer, Askable, FoundOk, Sum, LanesOk, SafeRoots, Loaded;
    ghost var (q, f0) := (Asked(hm, keys), Output(found));
    lanes := new Lane[LANES](_ => Lane(0, 0, 0, 0, IDLE, 0));
    next, live := 0, 0;
    var i := 0;
    NothingDone(q, writes, [], f0);
    assert lanes[..0] == [];
    while i < LANES
      invariant i <= LANES && q == Asked(hm, keys) && hm.Readable() && next <= |keys|
      invariant LanesOk(q, lanes[..i], next, {}) && live == Sum(Active(), lanes[..i])
      invariant FoundOk(q, {}, next, writes, f0, Output(found))
      modifies lanes, found
    {
      ghost var (ls, f) := (lanes[..i], Output(found));
      if next < |keys| {
        var loaded := LoadLane(hm, keys, next);
        Reload(lanes, i, loaded, found, next);
        FoundLoaded(q, {}, next, writes, f0, f);
        SetUp(q, ls, next, loaded);
        next, live := next + 1, live + 1;
      } else {
        lanes[i] := Lane(0, 0, 0, 0, IDLE, 0);
        SetUp(q, ls, next, lanes[i]);
      }
      assert lanes[..i + 1] == ls + [lanes[i]];
      i := i + 1;
    }
    assert lanes[..LANES] == lanes[..];
  }

  lemma SetUpDone(q: Query, lanes: seq<Lane>, next: nat, live: nat, writes: bool, v0: seq<u64>, f0: seq<bool>,
                  f: seq<bool>)
    requires Askable(q) && |lanes| == LANES && LanesOk(q, lanes, next, {}) && live == Sum(Active(), lanes)
    requires FoundOk(q, {}, next, writes, f0, f)
    ensures BatchOk(q, lanes, next, live, 0, {}, writes, v0, v0, f0, f)
  {
    NothingDone(q, writes, v0, f0);
  }

  lemma SomeActive(q: Query, lanes: seq<Lane>, next: nat, live: nat, hits: nat, done: set<nat>,
                   writes: bool, v0: seq<u64>, v: seq<u64>, f0: seq<bool>, f: seq<bool>)
    requires Askable(q) && BatchOk(q, lanes, next, live, hits, done, writes, v0, v, f0, f) && live != 0
    ensures |lanes| == LANES && exists k: nat :: k < |lanes| && lanes[k].idx != IDLE
  {
    hide LanesOk, Sum;
    SumZero(Active(), lanes);
    var k: nat :| k < |lanes| && Active()(lanes[k]) != 0;
    assert lanes[k].idx != IDLE;
  }

  /** One sweep over the lanes. */
  method Sweep(hm: HM.HashMap, keys: seq<u64>, lanes: array<Lane>, values: array?<u64>, found: array?<bool>,
               next0: u32, live0: nat, hits0: nat, ghost done0: set<nat>, ghost v0: seq<u64>, ghost f0: seq<bool>)
    returns (next: u32, live: nat, hits: nat, ghost done: set<nat>)
    requires hm.Readable() && hm.H == BYTE_KEYS && |keys| <= 0xFFFF_FFFF && Apart(hm, lanes, values, found)
    requires values != null ==> |keys| <= values.Length
    requires found != null ==> |keys| <= found.Length
    requires Askable(Asked(hm, keys)) && next0 <= |keys| && live0 != 0
    requires BatchOk(Asked(hm, keys), lanes[..], next0, live0, hits0, done0, values != null, v0, Output(values), f0, Output(found))
    modifies lanes, values, found
    ensures hm.Readable() && Asked(hm, keys) == old(Asked(hm, keys)) && next <= |keys|
    ensures BatchOk(Asked(hm, keys), lanes[..], next, live, hits, done, values != null, v0, Output(values), f0, Output(found))
    ensures Work(Asked(hm, keys), lanes[..], next) < old(Work(Asked(hm, keys), lanes[..], next0))
  {
    hide Answer, Askable, SafeRoots, Work, BatchOk;
    ghost var (q, before) := (Asked(hm, keys), lanes[..]);
    SomeActive(q, before, next0, live0, hits0, done0, values != null, v0, Output(values), f0, Output(found));
    next, live, hits, done := next0, live0, hits0, done0;
    var i := 0;
    while i < LANES
      invariant i <= LANES && q == Asked(hm, keys) && hm.Readable() && next <= |keys|
      invariant BatchOk(q, lanes[..], next, live, hits, done, values != null, v0, Output(values), f0, Output(found))
      invariant Work(q, lanes[..], next) < Work(q, before, next0)
             || (lanes[..] == before && next == next0 && forall k: nat :: k < i ==> before[k].idx == IDLE)
    {
      if lanes[i].idx != IDLE {
        next, live, hits, done := Turn(hm, keys, lanes, i, values, found, next, live, hits, done, v0, f0);
      }
      i := i + 1;
    }
  }

  /** `rgm_hash_map_batch_walk`. Without output arrays it reads only. */
  method BatchWalk(hm: HM.HashMap, keys: seq<u64>, values: array?<u64>, found: array?<bool>) returns (hits: nat)
    requires hm.Readable() && hm.H == BYTE_KEYS && |keys| <= 0xFFFF_FFFF
    requires values != null ==> |keys| <= values.Length && (values as object) !in {hm.arena.mem as object, hm.top as object}
    requires found != null ==> |keys| <= found.Length && (found as object) !in {hm.arena.mem as object, hm.top as object}
    requires values != null && found != null ==> (values as object) != (found as object)
    modifies values, found
    ensures hm.Readable()
    ensures Answered(Asked(hm, keys), hits, values != null, old(Output(values)), Output(values), old(Output(found)), Output(found))
  {
    ghost var (q, v0, f0) := (Asked(hm, keys), Output(values), Output(found));
    assert Askable(q);
    hide Answer, Askable, SafeRoots, Work, Sum, Answered, BatchOk, LanesOk, ValuesOk, FoundOk, Hits;
    var lanes: array<Lane>, next: u32, live: nat := SetUpLanes(hm, keys, found, values != null);
    SetUpDone(q, lanes[..], next, live, values != null, v0, f0, Output(found));
    hits := 0;
    ghost var done: set<nat> := {};
    while live != 0
      invariant q == Asked(hm, keys) && hm.Readable() && next <= |keys|
      invariant BatchOk(q, lanes[..], next, live, hits, done, values != null, v0, Output(values), f0, Output(found))
      decreases Work(q, lanes[..], next)
      modifies lanes, values, found
    {
      next, live, hits, done := Sweep(hm, keys, lanes, values, found, next, live, hits, done, v0, f0);
    }
    BatchDone(q, lanes[..], next, hits, done, values != null, v0, Output(values), f0, Output(found));
  }

  // -----------------------------------------------------------------------------
  // The public calls.

  /** On a valid map the answer for a key is its entry. */
  lemma AnswerIsEntry(s: MapState, keys: seq<u64>, j: nat)
    requires MapOk(BYTE_KEYS, s) && |keys| <= 0xFFFF_FFFF && j < |keys|
    ensures Askable(Query(s.m, s.top, keys))
    ensures var r := Answer(Query(s.m, s.top, keys), j); var k := LE64(keys[j]);
      && (r != 0 <==> k in s.contents)
      && (r != 0 ==> r + 40 <= |s.m| && Value(s.m, r) == s.contents[k])
  {
    hide Lookup, Load32, LE64, Honest, AllLinked, Represents, SafeRoots;
    MapOkSafe(BYTE_KEYS, s);
    LookupCorrect(BYTE_KEYS, s.m, s.top, s.offs, LE64(keys[j]), s.contents);
    MapFits(BYTE_KEYS, s);
  }

  const INT32_MAX: int := 0x7FFF_FFFF

  /** `rgHashMapGetBatchU64`: one serial Get per key, in any order of completion. */
  method GetBatch(hm: HM.HashMap, keys: seq<u64>, values: array<u64>, found: array?<bool>) returns (n: int,
                  ghost hits: nat)
    requires hm.Readable() && hm.H == BYTE_KEYS && |keys| <= 0xFFFF_FFFF
    requires |keys| <= values.Length && (values as object) !in {hm.arena.mem as object, hm.top as object}
    requires found != null ==> |keys| <= found.Length && (found as object) !in {hm.arena.mem as object, hm.top as object}
    requires found != null ==> (values as object) != (found as object)
    modifies values, found
    ensures hm.Readable()
    ensures Answered(Asked(hm, keys), hits, true, old(values[..]), values[..], old(Output(found)), Output(found))
    ensures n == if hits > INT32_MAX then INT32_MAX else hits
  {
    hide Answered, SafeRoots;
    var total := BatchWalk(hm, keys, values, found);
    hits := total;
    n := if total > INT32_MAX then INT32_MAX else total;
  }

  /** The entries after upserting `keys` with `vals` in order: later duplicates win. */
  function Upserted(c: map<Key, u64>, keys: seq<u64>, vals: seq<u64>): map<Key, u64>
    requires |keys| == |vals|
  {
    if keys == [] then c
    else
      var n := |keys| - 1;
      Upserted(c, keys[..n], vals[..n])[LE64(keys[n]) := vals[n]]
  }

  /** A Put followed by the store through the returned pointer sets the key's value. */
  lemma PutThenStore(H: Hasher<Key>, s: MapState, a: Model.Arena, s1: MapState, a1: Model.Arena, k: Key, ok: bool, r: u32, v: u64)
    requires Model.Valid(a) && PutResult(H, s, a, s1, a1, k, ok, r) && r != 0
    ensures r in s1.offs && Fits(s1.m, r)
    ensures Stored(s1, r, v).contents == s.contents[k := v]
  {
    hide MapOk, Lookup, NewOffset, NewArena, Load32, Put64, Extends;
    ExtendsSafe(H, s, s1);
    ContentsFit(H, s1, k);
  }

  /** The arena cannot take another eight-byte key: the next cache line is beyond 4 GiB, or header and key do
      not fit from there, or are not committed and may not be. */
  ghost predicate Full(a: Model.Arena, ok: bool) {
    var off := LineUp(a.pos);
    off > 0xFFFF_FFFF || off + 48 > a.reserved || (!ok && off + 48 > a.committed)
  }

  /** One window: a read-only walk of its keys, then the serial upserts. */
  method PutWindow(hm: HM.HashMap, keys: seq<u64>, vals: seq<u64>, oks: seq<bool>, from: nat, to: nat,
                   ghost s: MapState)
    returns (done: nat)
    requires hm.Valid() && hm.H == BYTE_KEYS && |keys| == |vals| == |oks| <= 0xFFFF_FFFF && from <= to <= |keys|
    requires Extends(hm.H, s, hm.Snap()) && hm.contents == Upserted(s.contents, keys[..from], vals[..from])
    modifies hm.arena, hm.arena.mem, hm.top, hm`offs, hm`contents
    ensures hm.Valid() && Extends(hm.H, s, hm.Snap())
    ensures from <= done <= to && hm.contents == Upserted(s.contents, keys[..done], vals[..done])
    ensures done < to ==> LE64(keys[done]) !in hm.contents && Full(hm.arena.State(), oks[done])
  {
    hide MapOk, Extends, Answered, PutResult, LE64, Upserted, Askable, SafeRoots, Full;
    ghost var arena := hm.arena;
    MapOkSafe(hm.H, hm.Snap());
    var _ := BatchWalk(hm, keys[from..to], null, null);
    done := from;
    while done < to
      invariant from <= done <= to && hm.Valid() && hm.arena == arena && Extends(hm.H, s, hm.Snap())
      invariant hm.contents == Upserted(s.contents, keys[..done], vals[..done])
    {
      var stored := UpsertOne(hm, keys[done], vals[done], oks[done], s);
      if !stored {
        return;
      }
      UpsertedNext(s.contents, keys, vals, done);
      done := done + 1;
    }
  }

  /** `rgHashMapPutBatchU64`: the serial upserts, cut short when the arena is full. */
  method PutBatch(hm: HM.HashMap, keys: seq<u64>, vals: seq<u64>, oks: seq<bool>) returns (status: HM.Status,
                  ghost upserts: nat)
    requires hm.Valid() && hm.H == BYTE_KEYS && |keys| == |vals| == |oks| <= 0xFFFF_FFFF
    modifies hm.arena, hm.arena.mem, hm.top, hm`offs, hm`contents
    ensures hm.Valid() && Extends(hm.H, old(hm.Snap()), hm.Snap())
    ensures status == if upserts == |keys| then HM.OK else HM.NO_MEMORY
    ensures upserts <= |keys| && hm.contents == Upserted(old(hm.contents), keys[..upserts], vals[..upserts])
    ensures upserts < |keys| ==> LE64(keys[upserts]) !in hm.contents && Full(hm.arena.State(), oks[upserts])
  {
    hide MapOk, Extends, LE64, Upserted, SafeRoots, Full;
    ghost var (s, arena) := (hm.Snap(), hm.arena);
    ExtendsRefl(hm.H, s);
    UpsertedNone(s.contents, keys, vals);
    var done: nat := 0;
    while done < |keys|
      invariant done <= |keys| && hm.Valid() && hm.arena == arena && Extends(hm.H, s, hm.Snap())
      invariant hm.contents == Upserted(s.contents, keys[..done], vals[..done])
    {
      var n := if |keys| - done < 32 then |keys| - done else 32;
      var reached := PutWindow(hm, keys, vals, oks, done, done + n, s);
      if reached < done + n {
        return HM.NO_MEMORY, reached;
      }
      done := done + n;
    }
    return HM.OK, |keys|;
  }

  lemma UpsertedNone(c: map<Key, u64>, keys: seq<u64>, vals: seq<u64>)
    requires |keys| == |vals|
    ensures Upserted(c, keys[..0], vals[..0]) == c
  {
  }

  lemma UpsertedNext(c: map<Key, u64>, keys: seq<u64>, vals: seq<u64>, i: nat)
    requires |keys| == |vals| && i < |keys|
    ensures Upserted(c, keys[..i + 1], vals[..i + 1]) == Upserted(c, keys[..i], vals[..i])[LE64(keys[i]) := vals[i]]
  {
    hide LE64;
    assert keys[..i + 1][..i] == keys[..i] && vals[..i + 1][..i] == vals[..i];
  }

  /** One upsert: the Put and the store through the pointer it returns. */
  method UpsertOne(hm: HM.HashMap, key: u64, val: u64, ok: bool, ghost s: MapState) returns (stored: bool)
    requires hm.Valid() && hm.H == BYTE_KEYS && Extends(hm.H, s, hm.Snap())
    modifies hm.arena, hm.arena.mem, hm.top, hm`offs, hm`contents
    ensures hm.Valid() && Extends(hm.H, s, hm.Snap())
    ensures stored ==> hm.contents == old(hm.contents)[LE64(key) := val]
    ensures !stored ==> hm.contents == old(hm.contents) && LE64(key) !in hm.contents && Full(hm.arena.State(), ok)
  {
    hide MapOk, Extends, LE64, Put64, NewOffset, NewArena, Lookup, LineUp, Full;
    ghost var (s1, a1) := (hm.Snap(), hm.arena.State());
    var r := hm.PutU64(key, ok);
    ghost var (s2, a2) := (hm.Snap(), hm.arena.State());
    ExtendsTransitive(hm.H, s, s1, s2);
    if r == 0 {
      MapNotEmpty(hm.H, s1);
      PutRefused(hm.H, s1, a1, s2, a2, LE64(key), ok);
      return false;
    }
    PutThenStore(hm.H, s1, a1, s2, a2, LE64(key), ok, r, val);
    hm.SetValue(r, val);
    ExtendsTransitive(hm.H, s, s2, hm.Snap());
    return true;
  }

  lemma PutRefused(H: Hasher<Key>, s: MapState, a: Model.Arena, s1: MapState, a1: Model.Arena, k: Key, ok: bool)
    requires Model.Valid(a) && a.base % 64 == 0 && a.pos > 0 && |k| == 8 && PutResult(H, s, a, s1, a1, k, ok, 0)
    ensures s1.contents == s.contents && k !in s1.contents && Full(a1, ok)
  {
    hide MapOk, Lookup, NewOffset, NewArena, Extends, LineUp;
    ExtendsSafe(H, s, s1);
    if k in s.contents { ContentsFit(H, s, k); }
    NewArenaExact(a, 8, ok);
    NewOffsetExact(a1, 8, ok);
    RefusedIsFull(a1, ok);
  }

  lemma RefusedIsFull(a: Model.Arena, ok: bool)
    requires Model.Valid(a) && a.base % 64 == 0 && a.pos > 0 && NewOffset(a, 8, ok) == 0
    ensures Full(a, ok)
  {
    hide NewOffset, LineUp;
    NewOffsetExact(a, 8, ok);
  }
}
