/**
 Opening a file whose map kept growing after its last Save. The header and the index are those of the
 Save; the nodes are as later Puts and value stores left them. Open either sees a saved node that now
 links past the stored high-water mark and rejects the file, or finds exactly the saved keys.
 */
module HashMapCheckpoint {
  import opened Machine
  import opened Bytes
  import opened Descent
  import opened TrieShape
  import opened HashFunc
  import opened HashMapLayout
  import opened HashMapPut
  import opened HashMapNodes
  import opened HashMapValidate
  import opened HashMapPersist

  /** No saved node has been given a child since the Save. */
  ghost predicate NoNewLinks(m0: Image, offs: set<nat>, m1: Image)
    requires AllFit(m0, offs) && |m0| <= |m1|
  {
    forall o: nat, c: nat :: o in offs && c < 4 ==> Link(m1, o, c) == Link(m0, o, c)
  }

  /** The saved part of the later image, node by node. */
  lemma SavedNode(m0: Image, offs: set<nat>, m1: Image, img: Image, o: nat)
    requires AllFit(m0, offs) && Later(m0, offs, m1) && img == m1[..|m0|] && o in offs
    ensures Fits(img, o) && End(img, o) == End(m0, o) && KeyAt(img, o) == KeyAt(m0, o)
    ensures Load64(img, o + 16) == Load64(m0, o + 16) && Value(img, o) == Value(m1, o)
    ensures forall c: nat :: c < 4 ==> Link(img, o, c) == Link(m1, o, c) && LinkKept(m0, m1, o, c)
  {
    hide Load32, KeyAt;
    LaterFits(m0, offs, m1, o);
    assert NodeKept(m0, m1, o);
    var e := End(m0, o);
    assert m1[o..e] == img[o..e];
    NodeSame(m1, img, o);
  }

  /** The later image, cut at the old mark, as a trie: the saved one with other values. */
  lemma CutView(H: Hasher<Key>, m0: Image, top: seq<u32>, offs: set<nat>, m1: Image, img: Image)
    requires Honest(H, m0, top, offs) && Later(m0, offs, m1) && img == m1[..|m0|] && NoNewLinks(m0, offs, m1)
    ensures AllFit(img, offs) && SameLinks(View(m0, top, offs), View(img, top, offs))
    ensures View(img, top, offs).heap.Keys == View(m0, top, offs).heap.Keys
    ensures forall o: nat :: o in offs ==>
      && End(img, o) == End(m0, o) && KeyAt(img, o) == KeyAt(m0, o) && Value(img, o) == Value(m1, o)
      && Load64(img, o + 16) == Load64(m0, o + 16)
      && forall c: nat :: c < 4 ==> Link(img, o, c) == Link(m0, o, c)
  {
    hide WellFormed, Load32, KeyAt, Later, Separate, LinksUp;
    LaterSize(m0, offs, m1);
    forall o: nat | o in offs
      ensures Fits(img, o) && End(img, o) == End(m0, o) && KeyAt(img, o) == KeyAt(m0, o) && Value(img, o) == Value(m1, o)
      ensures Load64(img, o + 16) == Load64(m0, o + 16)
      ensures forall c: nat :: c < 4 ==> Link(img, o, c) == Link(m0, o, c)
    {
      SavedNode(m0, offs, m1, img, o);
    }
    NonZero(H, m0, top, offs);
  }

  lemma CutHonest(H: Hasher<Key>, m0: Image, top: seq<u32>, offs: set<nat>, m1: Image, img: Image)
    requires Honest(H, m0, top, offs) && AllLinked(m0, top, offs)
    requires Later(m0, offs, m1) && img == m1[..|m0|] && NoNewLinks(m0, offs, m1)
    ensures Honest(H, img, top, offs) && AllLinked(img, top, offs)
    ensures forall path :: At(View(img, top, offs), path) == At(View(m0, top, offs), path)
  {
    hide Load32, KeyAt, Later, At, Path, WellFormed, Separate;
    LaterSize(m0, offs, m1);
    CutView(H, m0, top, offs, m1, img);
    var (t, t') := (View(m0, top, offs), View(img, top, offs));
    HashesKept(H, t, t');
    SameLinksWellFormed(H, t, t');
    forall o: nat, c: nat | o in offs && c < 4 ensures LinkUp(img, offs, o, c) {
      assert LinkUp(m0, offs, o, c);
    }
    assert Separate(img, offs) by { SeparateKept(m0, img, offs); }
    forall o: nat | o in offs ensures Reachable(t', o) {
      assert Reachable(t, o);
      var path :| At(t, path) == o;
      assert At(t', path) == o;
    }
  }

  lemma HashesKept<K(!new)>(H: Hasher<K>, t: Trie<K>, t': Trie<K>)
    requires WellFormed(H, t) && SameLinks(t, t') && t'.heap.Keys == t.heap.Keys
    ensures forall p :: p in t'.heap ==> t'.heap[p].hash == H.digest(t'.heap[p].key)
  {
    hide At, Path;
  }

  lemma SeparateKept(m0: Image, img: Image, offs: set<nat>)
    requires AllFit(m0, offs) && AllFit(img, offs) && Separate(m0, offs)
    requires forall o: nat :: o in offs ==> End(img, o) == End(m0, o)
    ensures Separate(img, offs)
  {
  }

  lemma {:induction false} DepthKept(H: Hasher<Key>, m0: Image, top: seq<u32>, offs: set<nat>, img: Image, o: nat)
    requires Honest(H, m0, top, offs) && |img| == |m0| && o in offs && Safe(m0, o) && Safe(img, o)
    requires forall p: nat, c: nat :: p in offs && c < 4 ==> Link(img, p, c) == Link(m0, p, c)
    ensures Depth(img, o) == Depth(m0, o)
    decreases |m0| - o, 5
  {
    hide WellFormed, Load32, Safe, View, Separate;
    DepthFromKept(H, m0, top, offs, img, o, 0);
  }

  lemma {:induction false} DepthFromKept(H: Hasher<Key>, m0: Image, top: seq<u32>, offs: set<nat>, img: Image,
                                         o: nat, c: nat)
    requires Honest(H, m0, top, offs) && |img| == |m0| && o in offs && Safe(m0, o) && Safe(img, o) && c <= 4
    requires forall p: nat, c: nat :: p in offs && c < 4 ==> Link(img, p, c) == Link(m0, p, c)
    ensures DepthFrom(img, o, c) == DepthFrom(m0, o, c)
    decreases |m0| - o, 4 - c
  {
    hide WellFormed, Load32, Safe, View, Separate, Depth;
    if c < 4 {
      DepthFromKept(H, m0, top, offs, img, o, c + 1);
      var q := Link(m0, o, c);
      assert LinkUp(m0, offs, o, c);
      if q != 0 {
        SafeStep(m0, o);
        SafeStep(img, o);
        DepthKept(H, m0, top, offs, img, q);
      }
    }
  }

  /** A saved node is still reached by the saved links, so a safe image has it. */
  lemma {:induction false} SafeAlong(H: Hasher<Key>, m0: Image, top: seq<u32>, offs: set<nat>, m1: Image, img: Image,
                                     path: seq<nat>)
    requires Honest(H, m0, top, offs) && Later(m0, offs, m1) && img == m1[..|m0|] && SafeRoots(img, top)
    requires At(View(m0, top, offs), path) != 0
    ensures Safe(img, At(View(m0, top, offs), path))
    decreases |path|
  {
    hide WellFormed, Load32, Safe, View, Separate, At, Later, LinksUp;
    LaterSize(m0, offs, m1);
    var t := View(m0, top, offs);
    assert path != [] by { EmptyPath(t); }
    ChildNumberHonest(H, m0, top, offs, path);
    HonestTop(H, m0, top, offs);
    var last := |path| - 1;
    if last == 0 {
      assert path == [path[0]];
      TopAtPath(H, m0, top, offs, path[0]);
    } else {
      HonestPrefix(H, m0, top, offs, path, last);
      SafeAlong(H, m0, top, offs, m1, img, path[..last]);
      assert path == path[..last] + [path[last]];
      LinkAtPath(H, m0, top, offs, path[..last], path[last]);
      var o := At(t, path[..last]);
      SavedNode(m0, offs, m1, img, o);
      assert LinkKept(m0, m1, o, path[last]);
      SafeStep(img, o);
    }
  }

  lemma NewLinkIsUnsafe(H: Hasher<Key>, m0: Image, top: seq<u32>, offs: set<nat>, m1: Image, img: Image)
    requires Honest(H, m0, top, offs) && AllLinked(m0, top, offs)
    requires Later(m0, offs, m1) && img == m1[..|m0|] && !NoNewLinks(m0, offs, m1)
    ensures !SafeRoots(img, top)
  {
    hide WellFormed, Load32, Safe, View, Separate, At, Later, LinksUp;
    LaterSize(m0, offs, m1);
    var o: nat, c: nat :| o in offs && c < 4 && Link(m1, o, c) != Link(m0, o, c);
    SavedNode(m0, offs, m1, img, o);
    assert LinkKept(m0, m1, o, c);
    if SafeRoots(img, top) {
      var t := View(m0, top, offs);
      assert Reachable(t, o);
      var path :| At(t, path) == o;
      NonZero(H, m0, top, offs);
      SafeAlong(H, m0, top, offs, m1, img, path);
      SafeStep(img, o);
      SafeStep(img, Link(img, o, c));
    }
  }

  lemma HeaderKept(H: Hasher<Key>, m0: Image, top: seq<u32>, offs: set<nat>, io: nat, m1: Image, img: Image)
    requires Saved(H, m0, top, offs, io) && Later(m0, offs, m1) && img == m1[..|m0|]
    ensures HeaderAt(img) == HeaderAt(m0) && IndexAt(img, io) == top
  {
    hide WellFormed, Load32, View, Separate, LinksUp, NodeKept, AllLinked;
    assert Clear(m0, offs, 0, HEADER_SIZE) && Clear(m0, offs, io, io + INDEX_BYTES);
    assert img[0..HEADER_SIZE] == m1[0..HEADER_SIZE] == m0[0..HEADER_SIZE];
    assert img[io..io + INDEX_BYTES] == m1[io..io + INDEX_BYTES] == m0[io..io + INDEX_BYTES];
    assert HeaderAt(img) == HeaderAt(m0) by { SliceHeader(m0, img); }
    SliceIndex(m0, img, io);
  }

  lemma SliceIndex(m: Image, n: Image, io: nat)
    requires io + INDEX_BYTES <= |m| && io + INDEX_BYTES <= |n| && m[io..io + INDEX_BYTES] == n[io..io + INDEX_BYTES]
    ensures IndexAt(n, io) == IndexAt(m, io)
  {
    hide Load32;
    forall i | 0 <= i < TOP_SIZE ensures IndexAt(n, io)[i] == IndexAt(m, io)[i] {
      LoadSame(m, n, io + 4 * i, io, io + INDEX_BYTES);
    }
  }

  /** `c1` is `c0` with each key's value replaced by what its node holds in `m1`. */
  ghost predicate Current(m0: Image, offs: set<nat>, m1: Image, c0: map<Key, u64>, c1: map<Key, u64>)
    requires AllFit(m0, offs) && |m0| <= |m1|
  {
    && c1.Keys == c0.Keys
    && forall o: nat :: o in offs && KeyAt(m0, o) in c1 ==> c1[KeyAt(m0, o)] == Value(m1, o)
  }

  /** All or nothing. */
  lemma Checkpoint(H: Hasher<Key>, m0: Image, top: seq<u32>, offs: set<nat>, io: nat, c0: map<Key, u64>,
                   m1: Image, mem: seq<u8>, committed: u64)
    requires Saved(H, m0, top, offs, io) && Represents(View(m0, top, offs), c0) && Later(m0, offs, m1)
    requires |m0| <= committed <= |mem| < 0x1_0000_0000_0000_0000 && mem[..|m0|] == m1[..|m0|]
    ensures SafeRoots(m0, top)
    ensures Opens(mem, committed) <==> NoNewLinks(m0, offs, m1) && DepthAtMost(m0, top, MAX_DEPTH)
    ensures Opens(mem, committed) ==> var (img, index) := Opened(mem);
      && index == top && img == m1[..|m0|] && Honest(H, img, top, offs) && AllLinked(img, top, offs)
      && exists c1 :: Represents(View(img, top, offs), c1) && Current(m0, offs, m1, c0, c1)
  {
    hide WellFormed, Load32, View, Separate, LinksUp, Later, Safe, Depth, CheckRoots, RootsFrom, HeaderAt, IndexAt,
         Represents, Current, At;
    LaterSize(m0, offs, m1);
    var img := m1[..|m0|];
    HonestRootsSafe(H, m0, top, offs);
    HonestTop(H, m0, top, offs);
    HeaderKept(H, m0, top, offs, io, m1, img);
    PrefixHeader(img, mem);
    PrefixIndex(img, mem, io);
    ValidatorExact(img, top, |m0| / NODE_SIZE);
    if NoNewLinks(m0, offs, m1) {
      CutHonest(H, m0, top, offs, m1, img);
      HonestRootsSafe(H, img, top, offs);
      AllNodesEnumerate(H, img, top, offs);
      NodesFit(H, img, top, offs);
      DepthsKept(H, m0, top, offs, m1, img);
      CutContents(H, m0, top, offs, m1, img, c0);
    } else {
      NewLinkIsUnsafe(H, m0, top, offs, m1, img);
    }
  }

  lemma DepthsKept(H: Hasher<Key>, m0: Image, top: seq<u32>, offs: set<nat>, m1: Image, img: Image)
    requires Honest(H, m0, top, offs) && Honest(H, img, top, offs) && SafeRoots(m0, top) && SafeRoots(img, top)
    requires Later(m0, offs, m1) && img == m1[..|m0|] && NoNewLinks(m0, offs, m1)
    ensures DepthAtMost(img, top, MAX_DEPTH) <==> DepthAtMost(m0, top, MAX_DEPTH)
  {
    hide WellFormed, Load32, View, Separate, Later, Safe, Depth;
    LaterSize(m0, offs, m1);
    CutView(H, m0, top, offs, m1, img);
    forall i: nat | i < |top| && top[i] != 0 ensures Depth(img, top[i]) == Depth(m0, top[i]) {
      DepthKept(H, m0, top, offs, img, top[i]);
    }
  }

  lemma CutContents(H: Hasher<Key>, m0: Image, top: seq<u32>, offs: set<nat>, m1: Image, img: Image, c0: map<Key, u64>)
    requires Honest(H, m0, top, offs) && AllLinked(m0, top, offs) && Represents(View(m0, top, offs), c0)
    requires Honest(H, img, top, offs) && AllLinked(img, top, offs)
    requires Later(m0, offs, m1) && img == m1[..|m0|] && NoNewLinks(m0, offs, m1)
    ensures exists c1 :: Represents(View(img, top, offs), c1) && Current(m0, offs, m1, c0, c1)
  {
    hide WellFormed, Load32, Separate, LinksUp, Later, At, KeyAt, NodeAt;
    LaterSize(m0, offs, m1);
    CutView(H, m0, top, offs, m1, img);
    CutHonest(H, m0, top, offs, m1, img);
    var (t, t') := (View(m0, top, offs), View(img, top, offs));
    forall o: nat | o in offs
      ensures KeyOf(t, o) == KeyAt(m0, o) && KeyOf(t', o) == KeyAt(m0, o) && t'.heap[o].value == Value(m1, o)
    {
      KeyInView(m0, top, offs, o);
      KeyInView(img, top, offs, o);
      ValueInView(img, top, offs, o);
    }
    var c1 := Revalued(H, t, t', c0);
    forall o: nat | o in offs && KeyAt(m0, o) in c1 ensures c1[KeyAt(m0, o)] == Value(m1, o) {
      assert Reachable(t', o);
    }
    assert Represents(t', c1) && Current(m0, offs, m1, c0, c1);
  }

  lemma ValueInView(m: Image, top: seq<u32>, offs: set<nat>, p: nat)
    requires AllFit(m, offs) && p in offs
    ensures View(m, top, offs).heap[p].value == Value(m, p)
  {
  }

  /** The contents of a trie with the same links, nodes and keys but other values. */
  lemma Revalued<K(!new)>(H: Hasher<K>, t: Trie<K>, t': Trie<K>, c0: map<K, u64>) returns (c1: map<K, u64>)
    requires WellFormed(H, t) && WellFormed(H, t') && Represents(t, c0)
    requires SameLinks(t, t') && t'.heap.Keys == t.heap.Keys
    requires forall path :: At(t', path) == At(t, path)
    ensures c1.Keys == c0.Keys && Represents(t', c1)
  {
    hide At, WellFormed;
    forall k | k in c0 ensures exists p :: Holds(t', k, p) {
      var p :| Holds(t, k, p);
      var path :| At(t, path) == p;
      assert At(t', path) == p;
      assert Holds(t', k, p);
    }
    c1 := map k | k in c0 :: HeldIn(t', k);
    forall p | Reachable(t', p) && p in t'.heap ensures KeyOf(t', p) in c1 && c1[KeyOf(t', p)] == t'.heap[p].value {
      var path :| At(t', path) == p;
      assert Reachable(t, p);
      var k := KeyOf(t', p);
      assert Holds(t', k, p);
      var q :| Holds(t', k, q) && HeldIn(t', k) == t'.heap[q].value;
      SameKeySameNode(H, t', p, q);
    }
  }

  ghost function HeldIn<K(!new)>(t: Trie<K>, k: K): u64
    requires exists p :: Holds(t, k, p)
  {
    var p :| Holds(t, k, p);
    t.heap[p].value
  }
}
