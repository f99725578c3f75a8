/**
 Add and Test of any number of threads on one Bloom filter, one atomic load or OR at a time.

 `finished` and `started` are histories of the digest pairs whose Add has returned or been called; a Test
 is `due` when its pair was finished as it began. Clear is not part of this machine: the code does not
 allow it to run beside other calls.
 */
module BloomConcurrent {
  import opened Machine
  import opened Words
  import opened Bits
  import opened BloomFilter

  type Pair = (u64, u64)

  datatype Shape = Shape(blocks: nat, k: nat)

  datatype Pc =
    | Idle
    | AddLoad(h: Pair, i: nat)                 // about to look at word i of the block
    | AddOr(h: Pair, i: nat)                   // about to OR the mask into word i
    | Testing(h: Pair, i: nat, due: bool)      // about to load the word of position i
    | Tested(h: Pair, hit: bool, due: bool)

  datatype Action = CallAdd(h: Pair) | CallTest(h: Pair) | Next

  datatype State = State(words: seq<u64>, pc: seq<Pc>, started: set<Pair>, finished: set<Pair>)

  /** The mask of word `w` after the first `k` positions. */
  function Mask(h2: u64, k: nat, w: nat): u64 {
    if k == 0 then 0
    else
      var p := Pos(h2, k - 1);
      BelowTop(p % 64);
      if p / 64 == w then Or(Mask(h2, k - 1, w), Pow2(p % 64)) else Mask(h2, k - 1, w)
  }

  lemma {:induction false} MaskIs(h2: u64, k: nat, w: nat)
    ensures MaskOf(h2, k, w, Mask(h2, k, w))
    decreases k
  {
    hide MaskOf, Pos;
    if k == 0 {
      MaskStart(h2, w);
    } else {
      MaskIs(h2, k - 1, w);
      MaskStep(h2, k - 1, w, Mask(h2, k - 1, w));
    }
  }

  function At(S: Shape, h: Pair): nat
    requires S.blocks > 0
  {
    8 * (h.0 % S.blocks)
  }

  lemma AtInside(S: Shape, h: Pair)
    requires S.blocks > 0
    ensures At(S, h) + 8 <= 8 * S.blocks
  {
  }

  predicate Sized(S: Shape, s: State) {
    S.blocks > 0 && S.k > 0 && |s.words| == 8 * S.blocks
  }

  predicate Enabled(S: Shape, s: State, t: nat, a: Action) {
    Sized(S, s) && t < |s.pc| && (s.pc[t].Idle? <==> !a.Next?) && (s.pc[t].AddOr? ==> s.pc[t].i < 8)
  }

  function Step(S: Shape, s: State, t: nat, a: Action): State
    requires Enabled(S, s, t, a)
  {
    match s.pc[t]
    case Idle =>
      if a.CallAdd? then s.(pc := s.pc[t := AddLoad(a.h, 0)], started := s.started + {a.h})
      else s.(pc := s.pc[t := Testing(a.h, 0, a.h in s.finished)])
    case AddLoad(h, i) =>
      if i >= 8 then s.(pc := s.pc[t := Idle], finished := s.finished + {h})
      else
        AtInside(S, h);
        var m := Mask(h.1, S.k, i);
        s.(pc := s.pc[t := if m == 0 || AndBits(s.words[At(S, h) + i], m) == m then AddLoad(h, i + 1) else AddOr(h, i)])
    case AddOr(h, i) =>
      AtInside(S, h);
      var j := At(S, h) + i;
      s.(words := s.words[j := Or(s.words[j], Mask(h.1, S.k, i))], pc := s.pc[t := AddLoad(h, i + 1)])
    case Testing(h, i, due) =>
      if i >= S.k then s.(pc := s.pc[t := Tested(h, true, due)])
      else
        var pos := Pos(h.1, i);
        AtInside(S, h);
        var loaded := s.words[At(S, h) + pos / 64];
        s.(pc := s.pc[t := if AndBits(loaded, Pow2(pos % 64)) == 0 then Tested(h, false, due) else Testing(h, i + 1, due)])
    case Tested(_, _, _) => s.(pc := s.pc[t := Idle])
  }

  // -----------------------------------------------------------------------------
  // Bits are only ever switched on.

  ghost predicate Grown(before: seq<u64>, after: seq<u64>) {
    |after| == |before| && forall b: nat :: BitAt(before, b) ==> BitAt(after, b)
  }

  lemma OrGrows(words: seq<u64>, j: nat, m: u64)
    requires j < |words|
    ensures Grown(words, words[j := Or(words[j], m)])
    ensures forall c: nat :: c < 64 && Bit(m, c) ==> BitAt(words[j := Or(words[j], m)], 64 * j + c)
    ensures forall b: nat :: BitAt(words[j := Or(words[j], m)], b) ==> BitAt(words, b) || (b / 64 == j && Bit(m, b % 64))
  {
    hide Bit, OrBits;
    var after := words[j := Or(words[j], m)];
    forall b: nat | b < 64 * |words| ensures BitAt(after, b) <==> BitAt(words, b) || (b / 64 == j && Bit(m, b % 64)) {
      if b / 64 == j { BitOr(words[j], m, b % 64); }
    }
    forall c: nat | c < 64 && Bit(m, c) ensures BitAt(after, 64 * j + c) {
      DivSmall(j, 64, c);
    }
  }

  /** The key's bits in words 0 to `n - 1` of its block are set. */
  ghost predicate WordsSet(S: Shape, words: seq<u64>, h: Pair, n: nat)
    requires S.blocks > 0
  {
    forall p: nat :: p < 64 * n && Chosen(h.1, S.k, p) ==> BitAt(words, 64 * At(S, h) + p)
  }

  /** The key's first `n` positions are set. */
  ghost predicate FirstsSet(S: Shape, words: seq<u64>, h: Pair, n: nat)
    requires S.blocks > 0
  {
    forall j: nat :: j < n ==> BitAt(words, 64 * At(S, h) + Pos(h.1, j))
  }

  ghost predicate Present(S: Shape, words: seq<u64>, h: Pair)
    requires S.blocks > 0
  {
    AllSet(words, S.blocks, S.k, h.0, h.1)
  }

  /** Every bit that is set belongs to a key whose Add has been called. */
  ghost predicate NoStray(S: Shape, words: seq<u64>, started: set<Pair>)
    requires S.blocks > 0
  {
    forall b: nat :: BitAt(words, b) ==> exists h :: h in started && Place(S.blocks, S.k, h.0, h.1, b)
  }

  ghost predicate ThreadOk(S: Shape, s: State, pc: Pc)
    requires S.blocks > 0
  {
    match pc
    case Idle => true
    case AddLoad(h, i) => i <= 8 && h in s.started && WordsSet(S, s.words, h, i)
    case AddOr(h, i) => i < 8 && h in s.started && WordsSet(S, s.words, h, i)
    case Testing(h, i, due) => FirstsSet(S, s.words, h, i) && i <= S.k && (due ==> Present(S, s.words, h))
    case Tested(h, hit, due) => (hit ==> Present(S, s.words, h)) && (due ==> hit)
  }

  ghost predicate Inv(S: Shape, s: State) {
    && Sized(S, s)
    && NoStray(S, s.words, s.started)
    && (forall h :: h in s.finished ==> Present(S, s.words, h))
    && (forall t :: 0 <= t < |s.pc| ==> ThreadOk(S, s, s.pc[t]))
  }

  lemma ThreadStays(S: Shape, s: State, s': State, pc: Pc)
    requires S.blocks > 0 && ThreadOk(S, s, pc) && Grown(s.words, s'.words) && s.started <= s'.started
    ensures ThreadOk(S, s', pc)
  {
    hide BitAt, Chosen, Pos;
  }

  /** A whole block of words set is a key present. */
  lemma EightWords(S: Shape, words: seq<u64>, h: Pair)
    requires S.blocks > 0 && WordsSet(S, words, h, 8)
    ensures Present(S, words, h)
  {
    hide BitAt, Chosen;
    forall b: nat | Place(S.blocks, S.k, h.0, h.1, b) ensures BitAt(words, b) {
      assert b == 64 * At(S, h) + b % 512;
    }
  }

  lemma FirstWords(S: Shape, words: seq<u64>, h: Pair)
    requires S.blocks > 0
    ensures WordsSet(S, words, h, 0) && FirstsSet(S, words, h, 0)
  {
  }

  /** A skipped word already has the mask's bits. */
  lemma SkippedWord(S: Shape, words: seq<u64>, h: Pair, i: nat)
    requires S.blocks > 0 && |words| == 8 * S.blocks && i < 8 && WordsSet(S, words, h, i)
    requires At(S, h) + i < |words|
    requires var m := Mask(h.1, S.k, i); m == 0 || AndBits(words[At(S, h) + i], m) == m
    ensures WordsSet(S, words, h, i + 1)
  {
    hide Bit, AndBits, Chosen, Mask, MaskOf, BitAt;
    var m := Mask(h.1, S.k, i);
    MaskIs(h.1, S.k, i);
    CoversMask(words[At(S, h) + i], m);
    forall p: nat | p < 64 * (i + 1) && Chosen(h.1, S.k, p) ensures BitAt(words, 64 * At(S, h) + p) {
      if p >= 64 * i {
        var c := p - 64 * i;
        MaskBit(h.1, S.k, i, m, c);
        ZeroHasNoBits(c);
        WordBit(words, At(S, h) + i, c);
        assert 64 * At(S, h) + p == 64 * (At(S, h) + i) + c;
      }
    }
  }

  lemma OredWord(S: Shape, words: seq<u64>, h: Pair, i: nat)
    requires S.blocks > 0 && |words| == 8 * S.blocks && i < 8 && WordsSet(S, words, h, i)
    requires At(S, h) + i < |words|
    ensures var after := words[At(S, h) + i := Or(words[At(S, h) + i], Mask(h.1, S.k, i))];
      Grown(words, after) && WordsSet(S, after, h, i + 1)
  {
    hide Bit, OrBits, Chosen, Mask, MaskOf, BitAt;
    var (j, m) := (At(S, h) + i, Mask(h.1, S.k, i));
    var after := words[j := Or(words[j], m)];
    MaskIs(h.1, S.k, i);
    OrGrows(words, j, m);
    forall p: nat | p < 64 * (i + 1) && Chosen(h.1, S.k, p) ensures BitAt(after, 64 * At(S, h) + p) {
      if p >= 64 * i {
        var c := p - 64 * i;
        MaskBit(h.1, S.k, i, m, c);
        assert 64 * At(S, h) + p == 64 * j + c;
      }
    }
  }

  /** An OR adds no bit that is not the key's. */
  lemma OredStray(S: Shape, words: seq<u64>, started: set<Pair>, h: Pair, i: nat)
    requires S.blocks > 0 && i < 8 && At(S, h) + i < |words| && NoStray(S, words, started) && h in started
    ensures NoStray(S, words[At(S, h) + i := Or(words[At(S, h) + i], Mask(h.1, S.k, i))], started)
  {
    hide Bit, OrBits, Chosen, Mask, MaskOf, BitAt, Place;
    var (j, m) := (At(S, h) + i, Mask(h.1, S.k, i));
    var after := words[j := Or(words[j], m)];
    MaskIs(h.1, S.k, i);
    OrGrows(words, j, m);
    forall b: nat | BitAt(after, b) ensures exists g :: g in started && Place(S.blocks, S.k, g.0, g.1, b) {
      if !BitAt(words, b) {
        var c := b % 64;
        MaskBit(h.1, S.k, i, m, c);
        BlockBit(S.blocks, S.k, h.0, h.1, i, c);
        assert b == 64 * j + c;
        assert Place(S.blocks, S.k, h.0, h.1, b);
      }
    }
  }

  /** What a Test learns from one load. */
  lemma TestedWord(S: Shape, words: seq<u64>, h: Pair, i: nat)
    requires S.blocks > 0 && |words| == 8 * S.blocks && i < S.k && FirstsSet(S, words, h, i)
    requires At(S, h) + 8 <= |words|
    ensures var pos := Pos(h.1, i); var loaded := words[At(S, h) + pos / 64];
      && (AndBits(loaded, Pow2(pos % 64)) == 0 ==> !Present(S, words, h))
      && (AndBits(loaded, Pow2(pos % 64)) != 0 ==> FirstsSet(S, words, h, i + 1))
  {
    hide Bit, BitAt, Pos, AndBits, Pow2, AllSet;
    var pos := Pos(h.1, i);
    SplitPos(words, At(S, h), pos);
    TestBit(words[At(S, h) + pos / 64], pos % 64);
    if !BitAt(words, 64 * At(S, h) + pos) { MissingPlace(words, S.blocks, S.k, h.0, h.1, i); }
  }

  lemma AllFirsts(S: Shape, words: seq<u64>, h: Pair)
    requires S.blocks > 0 && FirstsSet(S, words, h, S.k)
    ensures Present(S, words, h)
  {
    hide BitAt, Pos, AllSet;
    EveryPlace(words, S.blocks, S.k, h.0, h.1);
  }

  /** Every step keeps the invariant, and no bit is ever switched off. */
  lemma StepKeeps(S: Shape, s: State, t: nat, a: Action)
    requires Inv(S, s) && Enabled(S, s, t, a)
    ensures Inv(S, Step(S, s, t, a)) && Grown(s.words, Step(S, s, t, a).words)
  {
    hide WordsSet, FirstsSet, Present, NoStray, BitAt, AndBits, Pow2, Pos, Mask, OrBits;
    var s' := Step(S, s, t, a);
    assert ThreadOk(S, s, s.pc[t]);
    StepThread(S, s, t, a);
    StepFinished(S, s, t, a);
    forall u | 0 <= u < |s'.pc| ensures ThreadOk(S, s', s'.pc[u]) {
      if u != t { ThreadStays(S, s, s', s.pc[u]); }
    }
  }

  /** The stepping thread, and the filter's bits. */
  lemma StepThread(S: Shape, s: State, t: nat, a: Action)
    requires Sized(S, s) && Enabled(S, s, t, a) && ThreadOk(S, s, s.pc[t]) && NoStray(S, s.words, s.started)
    requires forall h :: h in s.finished ==> Present(S, s.words, h)
    ensures var s' := Step(S, s, t, a);
      && Sized(S, s') && Grown(s.words, s'.words) && s.started <= s'.started
      && NoStray(S, s'.words, s'.started) && ThreadOk(S, s', s'.pc[t])
  {
    hide WordsSet, FirstsSet, Present, NoStray, BitAt, AndBits, Pow2, Pos, Mask, OrBits;
    match s.pc[t]
    case Idle =>
      if a.CallAdd? { StrayMore(S, s.words, s.started, a.h); }
      FirstWords(S, s.words, a.h);
    case AddLoad(h, i) =>
      AtInside(S, h);
      if i < 8 && Step(S, s, t, a).pc[t].AddLoad? { SkippedWord(S, s.words, h, i); }
    case AddOr(h, i) =>
      AtInside(S, h);
      OredWord(S, s.words, h, i);
      OredStray(S, s.words, s.started, h, i);
    case Testing(h, i, due) =>
      AtInside(S, h);
      if i < S.k { TestedWord(S, s.words, h, i); } else { AllFirsts(S, s.words, h); }
    case Tested(_, _, _) =>
  }

  lemma StrayMore(S: Shape, words: seq<u64>, started: set<Pair>, h: Pair)
    requires S.blocks > 0 && NoStray(S, words, started)
    ensures NoStray(S, words, started + {h})
  {
    hide BitAt, Place;
    forall b: nat | BitAt(words, b) ensures exists g :: g in started + {h} && Place(S.blocks, S.k, g.0, g.1, b) {
      var g :| g in started && Place(S.blocks, S.k, g.0, g.1, b);
      assert g in started + {h};
    }
  }

  lemma StepFinished(S: Shape, s: State, t: nat, a: Action)
    requires Inv(S, s) && Enabled(S, s, t, a) && Grown(s.words, Step(S, s, t, a).words)
    ensures var s' := Step(S, s, t, a); forall h :: h in s'.finished ==> Present(S, s'.words, h)
  {
    hide WordsSet, FirstsSet, NoStray, BitAt, AndBits, Pow2, Pos, Mask, OrBits, Place;
    var s' := Step(S, s, t, a);
    assert ThreadOk(S, s, s.pc[t]);
    forall h | h in s'.finished ensures Present(S, s'.words, h) {
      if h !in s.finished { EightWords(S, s.words, h); }
      assert Present(S, s.words, h);
    }
  }

  // -----------------------------------------------------------------------------
  // Runs.

  datatype Move = Move(thread: nat, action: Action)

  ghost predicate Run(S: Shape, threads: nat, states: seq<State>, moves: seq<Move>) {
    && S.blocks > 0 && S.k > 0
    && |states| == |moves| + 1
    && states[0] == State(seq(8 * S.blocks, _ => 0), seq(threads, _ => Idle), {}, {})
    && forall j: nat :: j < |moves| ==>
         Enabled(S, states[j], moves[j].thread, moves[j].action)
         && states[j + 1] == Step(S, states[j], moves[j].thread, moves[j].action)
  }

  lemma StartOk(S: Shape, threads: nat)
    requires S.blocks > 0 && S.k > 0
    ensures Inv(S, State(seq(8 * S.blocks, _ => 0), seq(threads, _ => Idle), {}, {}))
  {
    var words: seq<u64> := seq(8 * S.blocks, _ => 0);
    forall b: nat ensures !BitAt(words, b) { ZeroHasNoBits(b % 64); }
  }

  lemma {:induction false} RunKeeps(S: Shape, threads: nat, states: seq<State>, moves: seq<Move>, j: nat)
    requires Run(S, threads, states, moves) && j < |states|
    ensures Inv(S, states[j])
    decreases j
  {
    hide Inv, Step, Enabled;
    if j == 0 {
      StartOk(S, threads);
    } else {
      RunKeeps(S, threads, states, moves, j - 1);
      StepKeeps(S, states[j - 1], moves[j - 1].thread, moves[j - 1].action);
    }
  }

  /** In every interleaving: a Test that began after an Add of the same pair had returned answers 1; a
      Test that answers 1 saw only bits of keys whose Add had been called. */
  lemma NoFalseNegatives(S: Shape, threads: nat, states: seq<State>, moves: seq<Move>, j: nat, t: nat)
    requires Run(S, threads, states, moves) && j < |states| && t < |states[j].pc| && states[j].pc[t].Tested?
    ensures states[j].pc[t].due ==> states[j].pc[t].hit
    ensures states[j].pc[t].hit ==>
      forall b: nat :: Place(S.blocks, S.k, states[j].pc[t].h.0, states[j].pc[t].h.1, b) ==>
        exists g :: g in states[j].started && Place(S.blocks, S.k, g.0, g.1, b)
  {
    hide BitAt, Place;
    RunKeeps(S, threads, states, moves, j);
    assert ThreadOk(S, states[j], states[j].pc[t]);
  }

  /** Bit `b` is a position of one of these keys. */
  ghost predicate InUnion(S: Shape, keys: set<Pair>, b: nat)
    requires S.blocks > 0
  {
    exists h :: h in keys && Place(S.blocks, S.k, h.0, h.1, b)
  }

  /** When every Add that was called has returned, the set bits are exactly the positions of the added keys. */
  lemma BitsAreUnion(S: Shape, s: State)
    requires Inv(S, s) && s.started == s.finished
    ensures forall b: nat :: BitAt(s.words, b) <==> InUnion(S, s.finished, b)
  {
    hide BitAt, Place;
    forall b: nat | InUnion(S, s.finished, b) ensures BitAt(s.words, b) {
      var h :| h in s.finished && Place(S.blocks, S.k, h.0, h.1, b);
      assert Present(S, s.words, h);
    }
  }

  /** The sequential law, over every run: a Test that answers while no Add is unfinished answers 1 if and only
      if all the key's positions are positions of added keys. */
  lemma TestIsUnion(S: Shape, threads: nat, states: seq<State>, moves: seq<Move>, j: nat, t: nat)
    requires Run(S, threads, states, moves) && j < |moves| && states[j].started == states[j].finished
    requires t < |states[j].pc| && t < |states[j + 1].pc| && states[j].pc[t].Testing? && states[j + 1].pc[t].Tested?
    ensures states[j + 1].pc[t].h == states[j].pc[t].h
    ensures states[j + 1].pc[t].hit <==>
      forall b: nat :: Place(S.blocks, S.k, states[j].pc[t].h.0, states[j].pc[t].h.1, b) ==> InUnion(S, states[j].finished, b)
  {
    hide Inv, BitAt, Place, InUnion;
    RunKeeps(S, threads, states, moves, j);
    BitsAreUnion(S, states[j]);
    Verdict(S, states[j], moves[j].thread, moves[j].action, t);
  }

  /** The step in which a Test answers: 1 exactly when the key's bits are all set at that moment. */
  lemma Verdict(S: Shape, s: State, u: nat, a: Action, t: nat)
    requires Inv(S, s) && Enabled(S, s, u, a) && t < |s.pc| && s.pc[t].Testing?
    requires t < |Step(S, s, u, a).pc| && Step(S, s, u, a).pc[t].Tested?
    ensures var pc := Step(S, s, u, a).pc[t]; pc.h == s.pc[t].h && (pc.hit <==> Present(S, s.words, pc.h))
  {
    hide WordsSet, FirstsSet, Present, NoStray, BitAt, AndBits, Pow2, Pos, Mask, OrBits;
    assert ThreadOk(S, s, s.pc[t]);
    var (h, i) := (s.pc[t].h, s.pc[t].i);
    AtInside(S, h);
    if i < S.k { TestedWord(S, s.words, h, i); } else { AllFirsts(S, s.words, h); }
  }

  /** No thread waits for another: in every reachable state each can begin a call or take its next step. */
  lemma NeverStuck(S: Shape, s: State, t: nat, h: Pair)
    requires Inv(S, s) && t < |s.pc|
    ensures s.pc[t].Idle? ==> Enabled(S, s, t, CallAdd(h)) && Enabled(S, s, t, CallTest(h))
    ensures !s.pc[t].Idle? ==> Enabled(S, s, t, Next)
  {
    hide NoStray, Present, WordsSet, FirstsSet;
    assert ThreadOk(S, s, s.pc[t]);
  }
}
