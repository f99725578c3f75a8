/**
 Whole runs of a map: any sequence of Puts, value stores and batches, each of which leaves a state that
 `Extends` the one before.
 */
module HashMapRuns {
  import opened Machine
  import opened Bytes
  import opened Descent
  import opened TrieShape
  import opened HashFunc
  import opened HashMapLayout
  import opened HashMapPut
  import opened HashMapNodes
  import opened HashMapValidate
  import opened HashMapPersist
  import opened HashMapCheckpoint
  import opened HashMapState

  ghost predicate Run(H: Hasher<Key>, states: seq<MapState>) {
    && |states| > 0 && MapOk(H, states[0])
    && forall i: nat :: i + 1 < |states| ==> Extends(H, states[i], states[i + 1])
  }

  /** Over a whole run no key disappears or moves, and the nodes only grow. */
  lemma {:induction false} RunExtends(H: Hasher<Key>, states: seq<MapState>)
    requires Run(H, states)
    ensures Extends(H, states[0], states[|states| - 1])
    decreases |states|
  {
    hide Extends, MapOk;
    var n := |states| - 1;
    if n == 0 {
      ExtendsRefl(H, states[0]);
    } else {
      var front := states[..n];
      forall i: nat | i + 1 < |front| ensures Extends(H, front[i], front[i + 1]) {
        assert front[i] == states[i] && front[i + 1] == states[i + 1];
      }
      RunExtends(H, front);
      assert Extends(H, states[n - 1], states[n - 1 + 1]);
      ExtendsTransitive(H, states[0], states[n - 1], states[n]);
    }
  }

  /** A value pointer stays good: the offset returned for a key at any moment is the key's offset ever
      after, and what lies there is the key's current value. */
  lemma PointersStayGood(H: Hasher<Key>, states: seq<MapState>, i: nat, k: Key)
    requires Run(H, states) && i < |states| && k in states[i].contents
    ensures var (s, s1) := (states[i], states[|states| - 1]);
      && SafeRoots(s.m, s.top) && SafeRoots(s1.m, s1.top) && k in s1.contents
      && Lookup(H, s1.m, s1.top, k) == Lookup(H, s.m, s.top, k)
      && Fits(s1.m, Lookup(H, s.m, s.top, k)) && KeyAt(s1.m, Lookup(H, s.m, s.top, k)) == k
      && Value(s1.m, Lookup(H, s.m, s.top, k)) == s1.contents[k]
  {
    hide Extends, MapOk, Lookup, Load32, SafeRoots;
    RunOk(H, states, i);
    var rest := states[i..];
    forall j: nat | j + 1 < |rest| ensures Extends(H, rest[j], rest[j + 1]) {
      assert rest[j] == states[i + j] && rest[j + 1] == states[(i + j) + 1];
    }
    RunExtends(H, rest);
    ExtendsSafe(H, states[i], states[|states| - 1]);
    ContentsFit(H, states[|states| - 1], k);
  }

  lemma {:induction false} RunOk(H: Hasher<Key>, states: seq<MapState>, i: nat)
    requires Run(H, states) && i < |states|
    ensures MapOk(H, states[i])
    decreases i
  {
    hide Extends, MapOk;
    if i > 0 {
      assert Extends(H, states[i - 1], states[i - 1 + 1]);
      ExtendsSafe(H, states[i - 1], states[i]);
    }
  }

  /** A file written at the end of a run whose last Save was at its start. Open accepts it exactly when no
      saved node has been given a child since and the saved trie is at most 256 deep; the map it installs
      then has exactly the keys of the Save, with their current values, and is valid for further Puts. */
  lemma CheckpointOverRun(H: Hasher<Key>, states: seq<MapState>, io: nat, mem: seq<u8>, committed: u64)
    requires Run(H, states) && Saved(H, states[0].m, states[0].top, states[0].offs, io)
    requires var (s0, s1) := (states[0], states[|states| - 1]);
      && |s0.m| <= |s1.m| && |s0.m| <= committed <= |mem| < 0x1_0000_0000_0000_0000
      && mem[..|s0.m|] == s1.m[..|s0.m|]
    ensures var (s0, s1) := (states[0], states[|states| - 1]);
      && AllFit(s0.m, s0.offs) && SafeRoots(s0.m, s0.top)
      && (Opens(mem, committed) <==> NoNewLinks(s0.m, s0.offs, s1.m) && DepthAtMost(s0.m, s0.top, MAX_DEPTH))
    ensures Opens(mem, committed) ==> var (s0, s1) := (states[0], states[|states| - 1]); var (img, index) := Opened(mem);
      exists c :: MapOk(H, MapState(img, index, s0.offs, c))
        && c.Keys == s0.contents.Keys && (forall k :: k in c ==> k in s1.contents && c[k] == s1.contents[k])
  {
    hide Extends, MapOk, Lookup, Load32, SafeRoots, Saved, Later, NoNewLinks, Represents, AllLinked, Honest, Current,
         DepthAtMost, CheckRoots, HeaderAt, IndexAt;
    var (s0, s1) := (states[0], states[|states| - 1]);
    RunExtends(H, states);
    ExtendsLater(H, s0, s1);
    MapParts(H, s0);
    Checkpoint(H, s0.m, s0.top, s0.offs, io, s0.contents, s1.m, mem, committed);
    if Opens(mem, committed) {
      var (img, index) := Opened(mem);
      HonestFits(H, img, index, s0.offs);
      var c :| Represents(View(img, index, s0.offs), c) && Current(s0.m, s0.offs, s1.m, s0.contents, c);
      OpenedOk(H, img, index, s0.offs, c);
      CurrentValues(H, s0, s1, c);
    }
  }

  lemma ExtendsLater(H: Hasher<Key>, s: MapState, s1: MapState)
    requires Extends(H, s, s1)
    ensures MapOk(H, s1) && AllFit(s.m, s.offs) && Later(s.m, s.offs, s1.m) && s.offs <= s1.offs && SamePlaces(H, s, s1)
  {
  }

  lemma MapParts(H: Hasher<Key>, s: MapState)
    requires MapOk(H, s)
    ensures Represents(View(s.m, s.top, s.offs), s.contents)
  {
  }

  lemma OpenedOk(H: Hasher<Key>, m: Image, top: seq<u32>, offs: set<nat>, c: map<Key, u64>)
    requires Honest(H, m, top, offs) && AllLinked(m, top, offs) && Represents(View(m, top, offs), c)
    ensures MapOk(H, MapState(m, top, offs, c))
  {
    hide Honest, AllLinked, Represents, SafeRoots;
    HonestRootsSafe(H, m, top, offs);
  }

  /** The values in the nodes are the map's current values. */
  lemma CurrentValues(H: Hasher<Key>, s: MapState, s1: MapState, c: map<Key, u64>)
    requires Extends(H, s, s1) && AllFit(s.m, s.offs) && |s.m| <= |s1.m| && Current(s.m, s.offs, s1.m, s.contents, c)
    ensures c.Keys == s.contents.Keys
    ensures forall k :: k in c ==> k in s1.contents && c[k] == s1.contents[k]
  {
    hide Extends, MapOk, Lookup, Load32, SafeRoots;
    ExtendsLater(H, s, s1);
    ExtendsSafe(H, s, s1);
    ExtendsOk(H, s, s1);
    forall k | k in c ensures k in s1.contents && c[k] == s1.contents[k] {
      ContentsFit(H, s, k);
      ContentsFit(H, s1, k);
      assert c[KeyAt(s.m, Lookup(H, s.m, s.top, k))] == Value(s1.m, Lookup(H, s.m, s.top, k));
    }
  }
}
