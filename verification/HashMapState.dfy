/**
 A HashMap's whole state as a value, its invariant, and what every mutation keeps: old nodes stay where
 they are, other keys keep their value locations, and a persisted header stays usable.
 */
module HashMapState {
  import opened Machine
  import opened Bytes
  import opened Descent
  import opened TrieShape
  import opened HashFunc
  import opened HashMapLayout
  import opened HashMapPut
  import opened HashMapNodes
  import opened HashMapPersist
  import opened HashMapValidate
  import opened Words
  import Model = ArenaModel

  /** Image, top index, node offsets, and the finite map they stand for. */
  datatype MapState = MapState(m: Image, top: seq<u32>, offs: set<nat>, contents: map<Key, u64>)

  ghost predicate MapOk(H: Hasher<Key>, s: MapState) {
    && Honest(H, s.m, s.top, s.offs)
    && AllLinked(s.m, s.top, s.offs)
    && Represents(View(s.m, s.top, s.offs), s.contents)
    && SafeRoots(s.m, s.top)
  }

  /** Keys of `s` are still there, at the same offsets. */
  ghost predicate SamePlaces(H: Hasher<Key>, s: MapState, s1: MapState)
    requires SafeRoots(s.m, s.top) && SafeRoots(s1.m, s1.top)
  {
    forall j :: j in s.contents ==> j in s1.contents && Lookup(H, s1.m, s1.top, j) == Lookup(H, s.m, s.top, j)
  }

  ghost predicate Extends(H: Hasher<Key>, s: MapState, s1: MapState) {
    && MapOk(H, s) && MapOk(H, s1)
    && SamePlaces(H, s, s1)
    && Grows(Snapshot(s.m, s.offs), Snapshot(s1.m, s1.offs))
    && forall cap: u64 :: HeaderOk(s.m, s.offs, cap) ==> HeaderOk(s1.m, s1.offs, cap)
  }

  lemma MapNotEmpty(H: Hasher<Key>, s: MapState)
    requires MapOk(H, s)
    ensures |s.m| > 0
  {
  }

  lemma MapOkSafe(H: Hasher<Key>, s: MapState)
    requires MapOk(H, s)
    ensures SafeRoots(s.m, s.top)
  {
  }

  lemma ExtendsRefl(H: Hasher<Key>, s: MapState)
    requires MapOk(H, s)
    ensures Extends(H, s, s)
  {
    hide Honest, AllLinked, Represents, Later, Lookup, HeaderOk, SafeRoots;
    MapOkSafe(H, s);
    HonestFits(H, s.m, s.top, s.offs);
    LaterRefl(s.m, s.offs);
  }

  lemma HonestFits(H: Hasher<Key>, m: Image, top: seq<u32>, offs: set<nat>)
    requires Honest(H, m, top, offs)
    ensures AllFit(m, offs)
  {
  }

  lemma ExtendsTransitive(H: Hasher<Key>, s: MapState, s1: MapState, s2: MapState)
    requires Extends(H, s, s1) && Extends(H, s1, s2)
    ensures Extends(H, s, s2)
  {
    hide Honest, AllLinked, Represents, Later, Lookup, HeaderOk, SafeRoots;
    LaterSize(s.m, s.offs, s1.m);
    LaterTransitive(s.m, s.offs, s1.m, s1.offs, s2.m);
  }

  /** A header survives when its line and the index region do. */
  lemma HeaderSurvives(H: Hasher<Key>, m: Image, top: seq<u32>, offs: set<nat>, m1: Image, offs1: set<nat>, cap: u64)
    requires Honest(H, m, top, offs) && AllFit(m1, offs1) && offs <= offs1 && Later(m, offs, m1)
    requires forall o: nat :: o in offs1 && o !in offs ==> o >= |m|
    requires HeaderOk(m, offs, cap)
    ensures HeaderOk(m1, offs1, cap)
  {
    hide WellFormed, Load32, View, Separate, LinksUp, NodeKept;
    assert Clear(m, offs, 0, HEADER_SIZE);
    assert m1[0..HEADER_SIZE] == m[0..HEADER_SIZE];
    SliceHeader(m, m1);
    forall o: nat | o in offs1 && Reusable(HeaderAt(m), cap)
      ensures var io := HeaderAt(m).indexOffset; End(m1, o) <= io || io + INDEX_BYTES <= o
    {
      if o in offs { LaterFits(m, offs, m1, o); }
    }
  }

  lemma HeadersSurvive(H: Hasher<Key>, m: Image, top: seq<u32>, offs: set<nat>, m1: Image, offs1: set<nat>)
    requires Honest(H, m, top, offs) && AllFit(m1, offs1) && offs <= offs1 && Later(m, offs, m1)
    requires forall o: nat :: o in offs1 && o !in offs ==> o >= |m|
    ensures forall cap: u64 :: HeaderOk(m, offs, cap) ==> HeaderOk(m1, offs1, cap)
  {
    hide WellFormed, View, Separate, LinksUp, Later, HeaderOk;
    forall cap: u64 | HeaderOk(m, offs, cap) ensures HeaderOk(m1, offs1, cap) {
      HeaderSurvives(H, m, top, offs, m1, offs1, cap);
    }
  }

  // -----------------------------------------------------------------------------
  // The position moves up: padding, or an allocation for something else.

  lemma GrowExtends(H: Hasher<Key>, s: MapState, m1: Image)
    requires MapOk(H, s) && |s.m| <= |m1| && m1[..|s.m|] == s.m
    ensures Extends(H, s, s.(m := m1))
    ensures View(m1, s.top, s.offs) == View(s.m, s.top, s.offs)
  {
    hide WellFormed, View, Separate, LinksUp, HeaderOk, Represents, Lookup, NodeAt, Load32;
    GrowHonest(H, s.m, s.top, s.offs, m1);
    GrowLater(s.m, s.offs, m1);
    HeadersSurvive(H, s.m, s.top, s.offs, m1, s.offs);
    HonestRootsSafe(H, m1, s.top, s.offs);
    forall j | j in s.contents ensures Lookup(H, m1, s.top, j) == Lookup(H, s.m, s.top, j) {
      LookupSameView(H, s.m, s.top, s.offs, s.contents, m1, j);
    }
  }

  lemma GrowHonest(H: Hasher<Key>, m: Image, top: seq<u32>, offs: set<nat>, m1: Image)
    requires Honest(H, m, top, offs) && |m| <= |m1| && m1[..|m|] == m
    ensures Honest(H, m1, top, offs) && View(m1, top, offs) == View(m, top, offs)
  {
    hide WellFormed, View, Separate, LinksUp, NodeAt, Load32;
    forall o: nat | o in offs ensures End(m, o) <= |m1| && m1[o..End(m, o)] == m[o..End(m, o)] {
      OldNodesSame(m, m1, o);
      assert m[0..|m|] == m && m1[0..|m|] == m1[..|m|];
      SubSlice(m, m1, 0, |m|, o, End(m, o));
    }
    SameNodesHonest(H, m, m1, top, offs);
  }

  lemma GrowLater(m: Image, offs: set<nat>, m1: Image)
    requires AllFit(m, offs) && |m| <= |m1| && m1[..|m|] == m
    ensures Later(m, offs, m1)
  {
    hide Load32;
    assert m[0..|m|] == m && m1[0..|m|] == m1[..|m|];
    forall lo: nat, hi: nat | lo <= hi <= |m| ensures m1[lo..hi] == m[lo..hi] {
      SubSlice(m, m1, 0, |m|, lo, hi);
    }
    forall o: nat | o in offs ensures NodeKept(m, m1, o) {
      OldNodesSame(m, m1, o);
    }
  }

  lemma LookupSameView(H: Hasher<Key>, m: Image, top: seq<u32>, offs: set<nat>, contents: map<Key, u64>, m1: Image,
                       k: Key)
    requires Honest(H, m, top, offs) && Represents(View(m, top, offs), contents) && k in contents
    requires Honest(H, m1, top, offs) && View(m1, top, offs) == View(m, top, offs)
    ensures SafeRoots(m, top) && SafeRoots(m1, top)
    ensures Lookup(H, m1, top, k) == Lookup(H, m, top, k)
  {
    hide WellFormed, View, Separate, LinksUp, Represents, Lookup, At, Load32;
    forall path | At(View(m, top, offs), path) != 0 ensures At(View(m, top, offs), path) in View(m, top, offs).heap {
      HonestWellFormed(H, m, top, offs);
      ReachableIsNode(H, View(m, top, offs), path);
    }
    LookupStable(H, m, top, offs, contents, m1, top, offs, contents, k);
  }

  // -----------------------------------------------------------------------------
  // A value store.

  function Stored(s: MapState, p: nat, v: u64): MapState
    requires Fits(s.m, p)
  {
    s.(m := Put64(s.m, p + 24, v), contents := s.contents[KeyAt(s.m, p) := v])
  }

  lemma StoreExtends(H: Hasher<Key>, s: MapState, p: nat, v: u64)
    requires MapOk(H, s) && p in s.offs
    ensures Fits(s.m, p) && Extends(H, s, Stored(s, p, v))
    ensures KeyAt(s.m, p) in s.contents
  {
    hide WellFormed, At, View, Separate, LinksUp, HeaderOk, Represents, Lookup, NodeAt, Load32, Put64, Reachable, KeyAt;
    var s1 := Stored(s, p, v);
    StoreHonest(H, s.m, s.top, s.offs, p, v, s.contents);
    var (t, t1) := (View(s.m, s.top, s.offs), View(s1.m, s.top, s.offs));
    StoreLinked(H, s, p, v);
    StoreLater(s.m, s.offs, p, v) by { HonestFits(H, s.m, s.top, s.offs); }
    HeadersSurvive(H, s.m, s.top, s.offs, s1.m, s.offs);
    HonestRootsSafe(H, s1.m, s.top, s.offs);
    KeyPresent(H, s, p);
    forall j | j in s.contents ensures Lookup(H, s1.m, s.top, j) == Lookup(H, s.m, s.top, j) {
      StoreKeyKept(H, s, p, v);
      LookupStable(H, s.m, s.top, s.offs, s.contents, s1.m, s.top, s.offs, s1.contents, j);
    }
  }

  lemma KeyPresent(H: Hasher<Key>, s: MapState, p: nat)
    requires MapOk(H, s) && p in s.offs
    ensures KeyAt(s.m, p) in s.contents && s.contents[KeyAt(s.m, p)] == Value(s.m, p)
    ensures Lookup(H, s.m, s.top, KeyAt(s.m, p)) == p
  {
    hide WellFormed, At, Separate, LinksUp, Lookup, Load32;
    var t := View(s.m, s.top, s.offs);
    assert Reachable(t, p);
    KeyInView(s.m, s.top, s.offs, p);
    assert Holds(t, KeyAt(s.m, p), p);
    HeldValue(t, KeyAt(s.m, p), p, s.contents);
    LookupHolds(H, s.m, s.top, s.offs, KeyAt(s.m, p), s.contents);
    HonestWellFormed(H, s.m, s.top, s.offs);
    SameKeySameNode(H, t, p, Lookup(H, s.m, s.top, KeyAt(s.m, p)));
  }

  lemma StoreLinked(H: Hasher<Key>, s: MapState, p: nat, v: u64)
    requires MapOk(H, s) && p in s.offs
    requires Honest(H, Put64(s.m, p + 24, v), s.top, s.offs)
    requires forall path :: At(View(Put64(s.m, p + 24, v), s.top, s.offs), path) == At(View(s.m, s.top, s.offs), path)
    ensures AllLinked(Put64(s.m, p + 24, v), s.top, s.offs)
  {
    hide WellFormed, At, View, Separate, LinksUp, Put64;
    var (t, t1) := (View(s.m, s.top, s.offs), View(Put64(s.m, p + 24, v), s.top, s.offs));
    forall o: nat | o in s.offs ensures Reachable(t1, o) {
      assert Reachable(t, o);
      var path :| At(t, path) == o;
      assert At(t1, path) == o;
    }
  }

  /** The premise of `LookupStable` for a value store. */
  lemma StoreKeyKept(H: Hasher<Key>, s: MapState, p: nat, v: u64)
    requires MapOk(H, s) && p in s.offs
    ensures AllFit(Put64(s.m, p + 24, v), s.offs)
    ensures var (t, t1) := (View(s.m, s.top, s.offs), View(Put64(s.m, p + 24, v), s.top, s.offs));
      forall path :: At(t, path) != 0 ==> At(t1, path) == At(t, path) && At(t, path) in t1.heap && At(t, path) in t.heap
                                          && KeyOf(t1, At(t, path)) == KeyOf(t, At(t, path))
  {
    hide WellFormed, At, Separate, LinksUp, Put64, NodeAt, Load32;
    StoreHonest(H, s.m, s.top, s.offs, p, v, s.contents);
    var (t, t1) := (View(s.m, s.top, s.offs), View(Put64(s.m, p + 24, v), s.top, s.offs));
    HonestWellFormed(H, s.m, s.top, s.offs);
    forall path | At(t, path) != 0
      ensures At(t1, path) == At(t, path) && At(t, path) in t1.heap && At(t, path) in t.heap
      ensures KeyOf(t1, At(t, path)) == KeyOf(t, At(t, path))
    {
      ReachableIsNode(H, t, path);
    }
  }

  lemma StoreLater(m: Image, offs: set<nat>, p: nat, v: u64)
    requires AllFit(m, offs) && Separate(m, offs) && p in offs
    ensures Later(m, offs, Put64(m, p + 24, v))
  {
    hide Load32, Put64;
    var m1 := Put64(m, p + 24, v);
    forall lo: nat, hi: nat | lo <= hi <= |m| && Clear(m, offs, lo, hi) ensures m1[lo..hi] == m[lo..hi] {
      Put64Same(m, p + 24, v, lo, hi);
    }
    forall o: nat | o in offs ensures NodeKept(m, m1, o) {
      Put64Same(m, p + 24, v, o, o + 24);
      Put64Same(m, p + 24, v, o + 32, End(m, o));
      SubSlice(m, m1, o, o + 24, o + 16, o + 24);
      forall c: nat | c < 4 ensures LinkKept(m, m1, o, c) {
        LoadSame(m, m1, o + 4 * c, o, o + 24);
      }
    }
  }

  // -----------------------------------------------------------------------------
  // A published node.

  ghost function Published(H: Hasher<Key>, s: MapState, k: Key, n: nat, m1: Image, q: u32): MapState
    requires n >= 1 && AllFit(s.m, s.offs)
    requires var slot := SlotOf(View(s.m, s.top, s.offs), Path(H, k, n));
      (slot.Top? ==> slot.i < |s.top|) && (slot.Child? ==> Fits(m1, slot.p) && slot.c < 4)
  {
    var slot := SlotOf(View(s.m, s.top, s.offs), Path(H, k, n));
    MapState(LinkImage(m1, slot, q), LinkTop(s.top, slot, q), s.offs + {q}, s.contents[k := 0])
  }

  /** The empty slot at the end of a key's walk. */
  lemma SlotInRange(H: Hasher<Key>, s: MapState, k: Key, n: nat)
    requires MapOk(H, s) && OnWay(H, View(s.m, s.top, s.offs), k, n)
    ensures var t := View(s.m, s.top, s.offs); var slot := SlotOf(t, Path(H, k, n));
      && HasSlot(t, slot)
      && (slot.Top? ==> slot.i < |s.top| && s.top[slot.i] == At(t, Path(H, k, n)))
      && (slot.Child? ==> slot.p in s.offs && slot.c < 4 && Fits(s.m, slot.p) && Link(s.m, slot.p, slot.c) == At(t, Path(H, k, n)))
  {
    hide WellFormed, At, Path, Separate, LinksUp, Represents, SafeRoots, Load32;
    var t := View(s.m, s.top, s.offs);
    HonestWellFormed(H, s.m, s.top, s.offs);
    SlotOnPath(H, t, k, n);
    var slot := SlotOf(t, Path(H, k, n));
    if slot.Child? { FourChildren(s.m, slot.p); }
  }

  /** After the append, before the link: the new node is there but nothing points to it. */
  lemma ReadyToPublish(H: Hasher<Key>, s: MapState, k: Key, n: nat, m1: Image, q: u32)
    requires MapOk(H, s) && OnWay(H, View(s.m, s.top, s.offs), k, n) && At(View(s.m, s.top, s.offs), Path(H, k, n)) == 0
    requires Appended(H, s.m, m1, q, k)
    ensures Honest(H, m1, s.top, s.offs + {q})
    ensures var (t, t1) := (View(s.m, s.top, s.offs), View(m1, s.top, s.offs + {q}));
      && Represents(t1, s.contents) && Publishable(H, t1, k, n, q)
      && q in t1.heap && t1.heap[q].key == k && t1.heap[q].value == 0
      && (forall path :: At(t1, path) == At(t, path))
      && SlotOf(t1, Path(H, k, n)) == SlotOf(t, Path(H, k, n))
      && (forall o: nat :: o in s.offs ==> o in t.heap && o in t1.heap && t1.heap[o] == t.heap[o])
  {
    hide WellFormed, At, Path, Separate, LinksUp, Represents, SafeRoots, Load32, NodeAt;
    AppendHonest(H, s.m, s.top, s.offs, m1, q, k);
    AppendView(H, s.m, s.top, s.offs, m1, q, k);
    var (t, t1) := (View(s.m, s.top, s.offs), View(m1, s.top, s.offs + {q}));
    HonestWellFormed(H, s.m, s.top, s.offs);
    AppendedRepresents(H, t, t1, q, s.contents, k);
    SlotInRange(H, s, k, n);
    AppendedPublishable(H, t, t1, k, n, q);
  }

  lemma AppendedRepresents<K(!new)>(H: Hasher<K>, t: Trie<K>, t1: Trie<K>, q: nat, contents: map<K, u64>, k: K)
    requires WellFormed(H, t) && Represents(t, contents) && q !in t.heap && q != 0
    requires t1 == t.(heap := t.heap[q := Node([0, 0, 0, 0], H.digest(k), k, 0)])
    requires forall path :: At(t1, path) == At(t, path)
    ensures Represents(t1, contents) && !Reachable(t1, q)
  {
    hide At, Path, Represents;
    AllocateRepresents(t, t1, contents);
  }

  lemma AppendedPublishable<K(!new)>(H: Hasher<K>, t: Trie<K>, t1: Trie<K>, k: K, n: nat, q: nat)
    requires OnWay(H, t, k, n) && q !in t.heap && q != 0 && HasSlot(t, SlotOf(t, Path(H, k, n)))
    requires t1 == t.(heap := t.heap[q := Node([0, 0, 0, 0], H.digest(k), k, 0)])
    requires (forall path :: At(t1, path) == At(t, path)) && !Reachable(t1, q)
    requires At(t, Path(H, k, n)) == 0
    ensures Publishable(H, t1, k, n, q) && SlotOf(t1, Path(H, k, n)) == SlotOf(t, Path(H, k, n))
  {
    hide At, Path, Reachable;
    forall m | 1 <= m < n ensures var p := At(t1, Path(H, k, m)); p != 0 && p in t1.heap && KeyOf(t1, p) != k {
      assert At(t1, Path(H, k, m)) == At(t, Path(H, k, m));
    }
  }

  /** Everything stays linked, and the new node is now linked too. */
  lemma PublishedLinked<K(!new)>(t: Trie<K>, t1: Trie<K>, t2: Trie<K>, target: seq<nat>, q: nat, o: nat)
    requires (forall path :: At(t1, path) == At(t, path)) && Linked(t1, t2, target, q) && At(t, target) == 0
    requires o == q != 0 || Reachable(t, o)
    ensures Reachable(t2, o)
  {
    hide At;
    if o == q {
      assert At(t2, target) == q;
    } else {
      var path :| At(t, path) == o;
      assert At(t1, path) == o;
      assert At(t2, path) == o;
    }
  }

  lemma PublishedLater(m: Image, offs: set<nat>, m1: Image, slot: Slot, q: u32)
    requires AllFit(m, offs) && Separate(m, offs) && |m| <= |m1| && m1[..|m|] == m && |m| <= q
    requires slot.Child? ==> slot.p in offs && slot.c < 4 && Link(m, slot.p, slot.c) == 0 && Fits(m1, slot.p)
    ensures Later(m, offs, LinkImage(m1, slot, q))
  {
    hide Load32, Put32, NodeKept;
    GrowLater(m, offs, m1);
    if slot.Child? {
      var (p, c) := (slot.p, slot.c);
      var m2 := Put32(m1, p + 4 * c, q);
      forall lo: nat, hi: nat | lo <= hi <= |m| && Clear(m, offs, lo, hi) ensures m2[lo..hi] == m[lo..hi] {
        Put32Same(m1, p + 4 * c, q, lo, hi);
      }
      forall o: nat | o in offs ensures NodeKept(m, m2, o) {
        PublishedNode(m, offs, m1, p, c, q, o);
      }
    }
  }

  lemma PublishedNode(m: Image, offs: set<nat>, m1: Image, p: nat, c: nat, q: u32, o: nat)
    requires AllFit(m, offs) && Separate(m, offs) && |m| <= |m1| && m1[..|m|] == m && |m| <= q
    requires p in offs && c < 4 && Link(m, p, c) == 0 && Fits(m1, p) && o in offs
    ensures NodeKept(m, Put32(m1, p + 4 * c, q), o)
  {
    hide Load32, Put32, NodeAt;
    var m2 := Put32(m1, p + 4 * c, q);
    GrowLater(m, offs, m1);
    assert NodeKept(m, m1, o);
    OldNodesSame(m, m1, o);
    OldNodesSame(m, m1, p);
    var at := p + 4 * c;
    assert o != p ==> End(m, o) <= p || End(m, p) <= o;
    Put32Same(m1, at, q, o + 16, o + 24);
    Put32Same(m1, at, q, o + 32, End(m, o));
    forall d: nat | d < 4 ensures LinkKept(m, m2, o, d) {
      assert Link(m1, o, d) == Link(m, o, d);
      if o == p && d == c {
        Put32Load(m1, at, q);
      } else {
        assert o + 4 * d + 4 <= at || at + 4 <= o + 4 * d;
        LinkSame(m1, at, q, o, d);
      }
    }
  }

  lemma LinkSame(m: Image, at: nat, q: u32, o: nat, d: nat)
    requires o + 40 <= |m| && d < 4 && at + 4 <= |m| && (o + 4 * d + 4 <= at || at + 4 <= o + 4 * d)
    ensures Link(Put32(m, at, q), o, d) == Link(m, o, d)
  {
    hide Put32, Load32;
    Put32Same(m, at, q, o + 4 * d, o + 4 * d + 4);
    LoadSame(m, Put32(m, at, q), o + 4 * d, o + 4 * d, o + 4 * d + 4);
  }

  /** The premise of `LookupStable` for a publish. */
  lemma PublishedKeysKept<K(!new)>(H: Hasher<K>, t: Trie<K>, t1: Trie<K>, t2: Trie<K>, target: seq<nat>, q: nat)
    requires WellFormed(H, t) && (forall path :: At(t1, path) == At(t, path)) && Linked(t1, t2, target, q)
    requires At(t, target) == 0 && t.heap.Keys <= t1.heap.Keys
    requires forall o :: o in t.heap ==> t1.heap[o] == t.heap[o]
    ensures forall path :: At(t, path) != 0 ==>
      && At(t2, path) == At(t, path) && At(t, path) in t2.heap && At(t, path) in t.heap
      && KeyOf(t2, At(t, path)) == KeyOf(t, At(t, path))
  {
    hide At, WellFormed;
    forall path | At(t, path) != 0
      ensures At(t2, path) == At(t, path) && At(t, path) in t2.heap && At(t, path) in t.heap
      ensures KeyOf(t2, At(t, path)) == KeyOf(t, At(t, path))
    {
      ReachableIsNode(H, t, path);
    }
  }

  /** Put's insert: exactly one entry appears, with value 0; nothing else moves. */
  lemma PutExtends(H: Hasher<Key>, s: MapState, k: Key, n: nat, m1: Image, q: u32)
    requires MapOk(H, s) && n >= 1 && OnWay(H, View(s.m, s.top, s.offs), k, n)
    requires At(View(s.m, s.top, s.offs), Path(H, k, n)) == 0 && Appended(H, s.m, m1, q, k)
    ensures var slot := SlotOf(View(s.m, s.top, s.offs), Path(H, k, n));
      && (slot.Top? ==> slot.i < |s.top|) && (slot.Child? ==> Fits(m1, slot.p) && slot.c < 4)
    ensures k !in s.contents
    ensures Extends(H, s, Published(H, s, k, n, m1, q))
    ensures var s1 := Published(H, s, k, n, m1, q); Lookup(H, s1.m, s1.top, k) == q
  {
    hide WellFormed, At, Path, Separate, LinksUp, Represents, SafeRoots, Load32, NodeAt, View, HasSlot, OnWay,
         Linked, Publishable,
         Lookup, HeaderOk, LinkImage, LinkTop, Write, Later;
    var t := View(s.m, s.top, s.offs);
    var slot := SlotOf(t, Path(H, k, n));
    var offs1 := s.offs + {q};
    SlotInRange(H, s, k, n);
    if slot.Child? { OldNodesSame(s.m, m1, slot.p); }
    ReadyToPublish(H, s, k, n, m1, q);
    var t1 := View(m1, s.top, offs1);
    LinkHonest(H, m1, s.top, offs1, k, n, q, s.contents);
    var s1 := Published(H, s, k, n, m1, q);
    var t2 := View(s1.m, s1.top, offs1);
    PublishedState(H, s, k, n, m1, q);
    PublishedLater(s.m, s.offs, m1, slot, q) by { HonestParts(H, s.m, s.top, s.offs); }
    HeadersSurvive(H, s.m, s.top, s.offs, s1.m, offs1);
    PublishedLookups(H, s, s1, t1, Path(H, k, n), k, q);
    assert SamePlaces(H, s, s1);
  }

  lemma HonestParts(H: Hasher<Key>, m: Image, top: seq<u32>, offs: set<nat>)
    requires Honest(H, m, top, offs)
    ensures AllFit(m, offs) && Separate(m, offs)
  {
  }

  /** The invariant after a publish. */
  lemma PublishedState(H: Hasher<Key>, s: MapState, k: Key, n: nat, m1: Image, q: u32)
    requires MapOk(H, s) && n >= 1
    requires var slot := SlotOf(View(s.m, s.top, s.offs), Path(H, k, n));
      (slot.Top? ==> slot.i < |s.top|) && (slot.Child? ==> Fits(m1, slot.p) && slot.c < 4)
    requires At(View(s.m, s.top, s.offs), Path(H, k, n)) == 0 && q != 0
    requires var s1 := Published(H, s, k, n, m1, q);
      && Honest(H, s1.m, s1.top, s1.offs) && Represents(View(s1.m, s1.top, s1.offs), s1.contents)
      && AllFit(m1, s1.offs)
      && (forall path :: At(View(m1, s.top, s1.offs), path) == At(View(s.m, s.top, s.offs), path))
      && Linked(View(m1, s.top, s1.offs), View(s1.m, s1.top, s1.offs), Path(H, k, n), q)
    ensures MapOk(H, Published(H, s, k, n, m1, q))
  {
    hide WellFormed, At, Path, Separate, LinksUp, Represents, SafeRoots, Load32, NodeAt, View, Linked, LinkImage,
         LinkTop, Reachable;
    var s1 := Published(H, s, k, n, m1, q);
    HonestRootsSafe(H, s1.m, s1.top, s1.offs);
    forall o: nat | o in s1.offs ensures Reachable(View(s1.m, s1.top, s1.offs), o) {
      PublishedLinked(View(s.m, s.top, s.offs), View(m1, s.top, s1.offs), View(s1.m, s1.top, s1.offs), Path(H, k, n), q, o);
    }
  }

  lemma PublishedLookups(H: Hasher<Key>, s: MapState, s1: MapState, t1: Trie<Key>, target: seq<nat>, k: Key, q: nat)
    requires MapOk(H, s) && MapOk(H, s1) && s1.contents == s.contents[k := 0] && k !in s.contents
    requires (forall path :: At(t1, path) == At(View(s.m, s.top, s.offs), path))
    requires Linked(t1, View(s1.m, s1.top, s1.offs), target, q) && At(View(s.m, s.top, s.offs), target) == 0
    requires forall o: nat :: o in s.offs ==> o in View(s.m, s.top, s.offs).heap && o in t1.heap && t1.heap[o] == View(s.m, s.top, s.offs).heap[o]
    requires q in s1.offs && q in t1.heap && t1.heap[q].key == k
    ensures forall j :: j in s.contents ==> j in s1.contents && Lookup(H, s1.m, s1.top, j) == Lookup(H, s.m, s.top, j)
    ensures Lookup(H, s1.m, s1.top, k) == q
  {
    hide WellFormed, At, Separate, LinksUp, Represents, SafeRoots, Load32, NodeAt, Lookup, AllLinked;
    var t := View(s.m, s.top, s.offs);
    HonestWellFormed(H, s.m, s.top, s.offs);
    PublishedKeysKept(H, t, t1, View(s1.m, s1.top, s1.offs), target, q);
    forall j | j in s.contents ensures j in s1.contents && Lookup(H, s1.m, s1.top, j) == Lookup(H, s.m, s.top, j) {
      LookupStable(H, s.m, s.top, s.offs, s.contents, s1.m, s1.top, s1.offs, s1.contents, j);
    }
    KeyInView(s1.m, s1.top, s1.offs, q);
    KeyPresent(H, s1, q);
  }

  // -----------------------------------------------------------------------------
  // Where the arena puts a node.

  /** The offset of a new node with a key of `len` bytes, or 0 when the arena cannot hold it below 4 GiB. */
  ghost function NewOffset(a: Model.Arena, len: nat, ok: bool): u32
    requires Model.Valid(a) && len < 0x1_0000_0000
  {
    var block := Model.AllocAligned(a, NODE_SIZE + len, CACHE_LINE, ok).1;
    if block.Some? && block.value <= 0xFFFF_FFFF then block.value else 0
  }

  /** The arena after that request: a block beyond 4 GiB is popped again. */
  ghost function NewArena(a: Model.Arena, len: nat, ok: bool): Model.Arena
    requires Model.Valid(a) && len < 0x1_0000_0000
  {
    var (b, block) := Model.AllocAligned(a, NODE_SIZE + len, CACHE_LINE, ok);
    if block.Some? && block.value > 0xFFFF_FFFF then Model.Pop(b, NODE_SIZE + len) else b
  }

  lemma AllocFacts(a: Model.Arena, size: u64, ok: bool)
    requires Model.Valid(a) && a.base % 64 == 0 && size > 0
    ensures var (b, r) := Model.AllocAligned(a, size, CACHE_LINE, ok);
      && Model.Valid(b) && b == a.(pos := b.pos, committed := b.committed)
      && (r.None? ==> b == a)
      && (r.Some? ==> a.pos <= r.value && b.pos == r.value + size && r.value % 64 == 0)
  {
    hide Model.PowerOfTwo, Model.AllocAligned, Model.UserOffset;
    Model.AllocCorrect(a, size, CACHE_LINE, ok);
    LineAligned();
    var (b, r) := Model.AllocAligned(a, size, CACHE_LINE, ok);
    if r.Some? { Below64(a.base, r.value); }
  }

  /** The least multiple of 64 that is not below `pos`. */
  function LineUp(pos: nat): (off: nat)
    ensures off % 64 == 0 && pos <= off < pos + 64
  {
    (pos + 63) / 64 * 64
  }

  /** The least multiple of 16 that is not below `pos`. */
  function QuadUp(pos: nat): (off: nat)
    ensures off % 16 == 0 && pos <= off < pos + 16
  {
    (pos + 15) / 16 * 16
  }

  lemma OneLine(off: nat, pos: nat)
    requires off % 64 == 0 && pos <= off < pos + 64
    ensures off == LineUp(pos)
  {
  }

  lemma OneQuad(off: nat, pos: nat)
    requires off % 16 == 0 && pos <= off < pos + 16
    ensures off == QuadUp(pos)
  {
  }

  /** Whether `size` bytes fit at `off`: inside the reservation, and committed already or on request. */
  predicate FitsAt(a: Model.Arena, off: nat, size: nat, ok: bool) {
    off + size <= a.reserved && (ok || off + size <= a.committed)
  }

  /** A request on a cache line, in plain numbers. */
  lemma LineExact(a: Model.Arena, size: u64, ok: bool)
    requires Model.Valid(a) && a.base % 64 == 0 && size > 0
    ensures var (b, r) := Model.AllocAligned(a, size, CACHE_LINE, ok);
      r == if FitsAt(a, LineUp(a.pos), size, ok) then Some(LineUp(a.pos)) else None
  {
    hide Model.PowerOfTwo, Model.AllocAligned, LineUp, Model.Padding, Model.Multiple;
    Model.AllocCorrect(a, size, CACHE_LINE, ok);
    LineAligned();
    LinePower();
    Model.PaddingAligns(a.base + a.pos, 64);
    BelowMultiple64(a.base, Model.UserOffset(a, 64));
    OneLine(Model.UserOffset(a, 64), a.pos);
    var r := Model.AllocAligned(a, size, CACHE_LINE, ok).1;
    if r.Some? {
      BelowMultiple64(a.base, r.value);
      OneLine(r.value, a.pos);
    }
  }

  lemma LinePower()
    ensures Model.PowerOfTwo(64) && Model.PowerOfTwo(16)
  {
    assert Pow2(6) == 64 && Pow2(4) == 16 by { assert Pow2(3) == 8; assert Pow2(2) == 4; }
  }

  lemma BelowMultiple64(base: nat, off: nat)
    requires base % 64 == 0 && Model.Multiple(base + off, 64)
    ensures off % 64 == 0
  {
    Below64(base, off);
  }

  lemma BelowMultiple16(base: nat, off: nat)
    requires base % 64 == 0 && Model.Multiple(base + off, 16)
    ensures off % 16 == 0
  {
    Below16(base, off);
  }

  lemma QuadExact(a: Model.Arena, size: u64, ok: bool)
    requires Model.Valid(a) && a.base % 64 == 0 && size > 0
    ensures var (b, r) := Model.AllocAligned(a, size, 16, ok);
      r == if FitsAt(a, QuadUp(a.pos), size, ok) then Some(QuadUp(a.pos)) else None
  {
    hide Model.PowerOfTwo, Model.AllocAligned, QuadUp, Model.Padding, Model.Multiple;
    Model.AllocCorrect(a, size, 16, ok);
    LinePower();
    assert Model.EffectiveAlign(16) == Some(16);
    Model.PaddingAligns(a.base + a.pos, 16);
    BelowMultiple16(a.base, Model.UserOffset(a, 16));
    OneQuad(Model.UserOffset(a, 16), a.pos);
    var r := Model.AllocAligned(a, size, 16, ok).1;
    if r.Some? {
      BelowMultiple16(a.base, r.value);
      OneQuad(r.value, a.pos);
    }
  }

  /** When an insert succeeds and where its node then lies, without reference to the allocator: the next cache
      line, if that offset has 32 bits and header and key fit. */
  lemma NewOffsetExact(a: Model.Arena, len: nat, ok: bool)
    requires Model.Valid(a) && a.base % 64 == 0 && len <= 0xFFFF_FFFF
    ensures NewOffset(a, len, ok) ==
      var off := LineUp(a.pos); if off <= 0xFFFF_FFFF && FitsAt(a, off, 40 + len, ok) then off else 0
  {
    hide Model.AllocAligned, LineUp;
    LineExact(a, 40 + len, ok);
  }

  /** A refused insert moves the position by padding at most, and is refused again. */
  lemma NewArenaExact(a: Model.Arena, len: nat, ok: bool)
    requires Model.Valid(a) && a.base % 64 == 0 && a.pos > 0 && len <= 0xFFFF_FFFF
    ensures var (a1, off) := (NewArena(a, len, ok), LineUp(a.pos));
      && Model.Valid(a1) && a1 == a.(pos := a1.pos, committed := a1.committed)
      && a1.pos == (if !FitsAt(a, off, 40 + len, ok) then a.pos else if off <= 0xFFFF_FFFF then off + 40 + len else off)
      && (NewOffset(a, len, ok) == 0 ==> NewOffset(a1, len, ok) == 0)
  {
    hide Model.AllocAligned, Model.PowerOfTwo, LineUp;
    AllocFacts(a, 40 + len, ok);
    LineExact(a, 40 + len, ok);
    var a1 := NewArena(a, len, ok);
    NewOffsetExact(a, len, ok);
    NewOffsetExact(a1, len, ok);
    if a1.pos == LineUp(a.pos) { OneLine(a1.pos, a1.pos); }
  }

  /** The same for the index copy of a Save. */
  lemma IndexPlaceExact(m: Image, a: Model.Arena, ok: bool)
    requires Model.Valid(a) && a.base % 64 == 0 && |m| >= HEADER_SIZE
    ensures IndexPlace(m, a, ok) ==
      if Reusable(HeaderAt(m), a.reserved) then HeaderAt(m).indexOffset
      else var off := QuadUp(a.pos); if off <= 0xFFFF_FFFF && FitsAt(a, off, 16384, ok) then off else 0
  {
    hide Model.AllocAligned, QuadUp, HeaderAt, Reusable;
    QuadExact(a, 16384, ok);
  }

  /** The index copy's place in the arena. */
  ghost function IndexPlace(m: Image, a: Model.Arena, ok: bool): u32
    requires Model.Valid(a) && |m| >= HEADER_SIZE
  {
    var (h, block) := (HeaderAt(m), Model.AllocAligned(a, INDEX_BYTES, 16, ok).1);
    if Reusable(h, a.reserved) then h.indexOffset
    else if block.Some? && block.value <= 0xFFFF_FFFF then block.value
    else 0
  }

  lemma IndexFacts(a: Model.Arena, ok: bool)
    requires Model.Valid(a) && a.base % 64 == 0
    ensures var (b, r) := Model.AllocAligned(a, INDEX_BYTES, 16, ok);
      && Model.Valid(b) && b == a.(pos := b.pos, committed := b.committed)
      && (r.None? ==> b == a)
      && (r.Some? ==> a.pos <= r.value && b.pos == r.value + INDEX_BYTES && r.value % 16 == 0)
  {
    hide Model.AllocAligned, Model.UserOffset;
    assert Pow2(4) == 16 by { assert Pow2(2) == 4; }
    hide Model.PowerOfTwo;
    Model.AllocCorrect(a, INDEX_BYTES, 16, ok);
    var (b, r) := Model.AllocAligned(a, INDEX_BYTES, 16, ok);
    if r.Some? { Below16(a.base, r.value); }
  }

  lemma Below16(base: nat, off: nat)
    requires base % 64 == 0 && (base + off) % 16 == 0
    ensures off % 16 == 0
  {
    var (p, q) := (base / 64, (base + off) / 16);
    assert off == 16 * (q - 4 * p);
    SixteenTimes(q - 4 * p);
  }

  lemma SixteenTimes(q: int)
    ensures 16 * q % 16 == 0
  {
  }

  lemma NodeAppended(H: Hasher<Key>, mem0: seq<u8>, mem1: seq<u8>, pos: nat, q: nat, k: Key)
    requires 0 < pos <= q && q % 64 == 0 && q + 40 + |k| <= |mem0| == |mem1|
    requires mem1[..q] == mem0[..q]
    requires var m := mem1[..q + 40 + |k|];
      Fits(m, q) && End(m, q) == |m| && NodeAt(m, q) == Node([0, 0, 0, 0], H.digest(k), k, 0)
    ensures mem1[..q + 40 + |k|][..pos] == mem0[..pos]
    ensures Appended(H, mem0[..pos], mem1[..q + 40 + |k|], q, k)
  {
    hide Load32, NodeAt, Fits, End;
    assert mem1[..q + 40 + |k|][..pos] == mem1[..q][..pos] == mem0[..q][..pos] == mem0[..pos];
  }

  /** The first allocation of a fresh arena is its first cache line. */
  lemma FirstLine(a: Model.Arena, ok: bool)
    requires Model.Valid(a) && a.base % 64 == 0 && a.pos == 0
    ensures var (b, r) := Model.AllocAligned(a, CACHE_LINE, CACHE_LINE, ok);
      Model.Valid(b) && (r.None? ==> b == a) && (r.Some? ==> r.value == 0 && b.pos == CACHE_LINE)
    ensures Model.AllocAligned(a, CACHE_LINE, CACHE_LINE, ok).1.Some? <==> FitsAt(a, 0, 64, ok)
  {
    LineExact(a, CACHE_LINE, ok);
    hide Model.AllocAligned, Model.PowerOfTwo, Model.UserOffset, Model.Multiple;
    AllocFacts(a, CACHE_LINE, ok);
    Model.AllocCorrect(a, CACHE_LINE, CACHE_LINE, ok);
    LineAligned();
  }

  lemma LineAligned()
    ensures Model.EffectiveAlign(CACHE_LINE) == Some(64)
  {
    assert Pow2(6) == 64 by { assert Pow2(3) == 8; }
  }

  lemma Below64(base: nat, off: nat)
    requires base % 64 == 0 && (base + off) % 64 == 0
    ensures off % 64 == 0
  {
  }

  // -----------------------------------------------------------------------------
  // One turn of the walk loops.

  /** Get's loop: safe images only. */
  lemma FindStep(H: Hasher<Key>, m: Image, k: Key, cur: nat, reg: Reg)
    requires cur != 0 && Safe(m, cur)
    ensures Fits(m, cur) && Digit(reg) < 4
    ensures var q := Link(m, cur, Digit(reg));
      && (q == 0 || (q > cur && Safe(m, q)))
      && Find(H, m, k, cur, reg) == if Hit(H, m, cur, k) then cur else Find(H, m, k, q, Advance(H, k, reg))
  {
    hide Hit, Load32, Advance;
    DigitInRange(reg);
    SafeStep(m, cur);
  }

  lemma FindEmpty(H: Hasher<Key>, m: Image, k: Key, reg: Reg)
    ensures Find(H, m, k, 0, reg) == 0
  {
  }

  /** A key too long for the length field is never matched. */
  lemma {:induction false} LongKeyMisses(H: Hasher<Key>, m: Image, k: Key, cur: nat, reg: Reg)
    requires |k| >= 0x1_0000_0000 && (cur == 0 || Safe(m, cur))
    ensures Find(H, m, k, cur, reg) == 0
    decreases if cur == 0 then 0 else |m| - cur
  {
    hide Load32, Advance, Safe;
    if cur != 0 {
      FindStep(H, m, k, cur, reg);
      LongKeyMisses(H, m, k, Link(m, cur, Digit(reg)), Advance(H, k, reg));
    }
  }

  /** Put's loop: the walk stays on the key's path. */
  lemma PutStep(H: Hasher<Key>, s: MapState, k: Key, n: nat, cur: nat)
    requires MapOk(H, s) && n >= 1 && OnWay(H, View(s.m, s.top, s.offs), k, n)
    requires cur == At(View(s.m, s.top, s.offs), Path(H, k, n)) && cur != 0
    ensures cur in s.offs && Fits(s.m, cur) && cur < |s.m|
    ensures Hit(H, s.m, cur, k) ==> k in s.contents && Lookup(H, s.m, s.top, k) == cur
    ensures !Hit(H, s.m, cur, k) ==>
      var (t, d) := (View(s.m, s.top, s.offs), Digit(RegAt(H, k, n - 1)));
      && OnWay(H, t, k, n + 1) && d < 4 && SlotOf(t, Path(H, k, n + 1)) == Child(cur, d)
      && RegAt(H, k, n) == Advance(H, k, RegAt(H, k, n - 1))
  {
    hide WellFormed, At, Path, Separate, LinksUp, Represents, SafeRoots, Load32, NodeAt, OnWay, Hit, RegAt, View,
         Lookup, Advance;
    var t := View(s.m, s.top, s.offs);
    HonestWellFormed(H, s.m, s.top, s.offs);
    ReachableIsNode(H, t, Path(H, k, n));
    ViewNode(H, s.m, s.top, s.offs, cur, k);
    if Hit(H, s.m, cur, k) {
      KeyInView(s.m, s.top, s.offs, cur);
      KeyPresent(H, s, cur);
    } else {
      StillOnWay(H, t, k, n);
      RegNext(H, k, n);
      DigitInRange(RegAt(H, k, n - 1));
      NextSlot(H, t, k, n);
    }
  }

  lemma NextSlot<K>(H: Hasher<K>, t: Trie<K>, k: K, n: nat)
    requires n >= 1
    ensures SlotOf(t, Path(H, k, n + 1)) == Child(At(t, Path(H, k, n)), Digit(RegAt(H, k, n - 1)))
  {
    hide At, RegAt;
    assert Path(H, k, n + 1) == Path(H, k, n) + [Digit(RegAt(H, k, n - 1))];
    assert Path(H, k, n + 1)[..n] == Path(H, k, n);
  }

  /** A walk that ends at an empty slot: the key is new. */
  lemma PutMiss(H: Hasher<Key>, s: MapState, k: Key, n: nat)
    requires MapOk(H, s) && OnWay(H, View(s.m, s.top, s.offs), k, n) && At(View(s.m, s.top, s.offs), Path(H, k, n)) == 0
    ensures k !in s.contents
  {
    hide WellFormed, At, Path, Separate, LinksUp, SafeRoots, Load32, NodeAt, OnWay;
    if k in s.contents {
      var p :| Holds(View(s.m, s.top, s.offs), k, p);
      HonestWellFormed(H, s.m, s.top, s.offs);
      MissMeansAbsent(H, View(s.m, s.top, s.offs), k, n, p);
    }
  }

  lemma ContentsFit(H: Hasher<Key>, s: MapState, k: Key)
    requires MapOk(H, s) && k in s.contents
    ensures var r := Lookup(H, s.m, s.top, k);
      && r in s.offs && r != 0 && Fits(s.m, r) && KeyAt(s.m, r) == k && Value(s.m, r) == s.contents[k]
      && |k| < 0x1_0000_0000
  {
    hide WellFormed, At, Path, Separate, LinksUp, Lookup, Load32, Represents, View;
    LookupCorrect(H, s.m, s.top, s.offs, k, s.contents);
    HonestFits(H, s.m, s.top, s.offs);
  }

  /** Put's loop: the walk for `k` has passed `n - 1` nodes, now looks at `slot`, and will use `reg` next. */
  ghost predicate Walking(H: Hasher<Key>, s: MapState, k: Key, n: nat, slot: Slot, reg: Reg) {
    && MapOk(H, s) && n >= 1
    && OnWay(H, View(s.m, s.top, s.offs), k, n)
    && slot == SlotOf(View(s.m, s.top, s.offs), Path(H, k, n))
    && reg == RegAt(H, k, n - 1)
  }

  ghost function SlotRank(m: Image, slot: Slot): int {
    if slot.Top? then |m| + 1 else |m| - slot.p
  }

  lemma WalkStart(H: Hasher<Key>, s: MapState, k: Key)
    requires MapOk(H, s)
    ensures Walking(H, s, k, 1, Top(TopIndex(H, k)), Start(H, k))
  {
  }

  lemma WalkSlot(H: Hasher<Key>, s: MapState, k: Key, n: nat, slot: Slot, reg: Reg)
    requires Walking(H, s, k, n, slot, reg)
    ensures slot.Top? ==> slot.i < |s.top|
    ensures slot.Child? ==> slot.c < 4 && Fits(s.m, slot.p)
    ensures SlotValue(s, slot) == 0 ==> EndsAt(H, s, k, n, slot)
  {
    hide OnWay, At, Path, RegAt;
    SlotInRange(H, s, k, n);
  }

  ghost function SlotValue(s: MapState, slot: Slot): u32
    requires (slot.Top? ==> slot.i < |s.top|) && (slot.Child? ==> slot.c < 4 && Fits(s.m, slot.p))
  {
    if slot.Top? then s.top[slot.i] else Link(s.m, slot.p, slot.c)
  }

  lemma WalkTurn(H: Hasher<Key>, s: MapState, k: Key, n: nat, slot: Slot, reg: Reg, cur: nat)
    requires Walking(H, s, k, n, slot, reg)
    requires (slot.Top? ==> slot.i < |s.top|) && (slot.Child? ==> slot.c < 4 && Fits(s.m, slot.p))
    requires cur == SlotValue(s, slot) != 0
    ensures Fits(s.m, cur) && SlotRank(s.m, slot) > |s.m| - cur >= 0
    ensures Hit(H, s.m, cur, k) ==> SafeRoots(s.m, s.top) && k in s.contents && Lookup(H, s.m, s.top, k) == cur
    ensures !Hit(H, s.m, cur, k) ==> Walking(H, s, k, n + 1, Child(cur, Digit(reg)), Advance(H, k, reg))
  {
    hide OnWay, At, Path, RegAt, Hit, Advance, Load32;
    SlotInRange(H, s, k, n);
    PutStep(H, s, k, n, cur);
    if slot.Child? { assert LinkUp(s.m, s.offs, slot.p, slot.c); }
  }

  /** The walk for `k` ends at the empty slot `slot`, `n` slots down. */
  ghost predicate EndsAt(H: Hasher<Key>, s: MapState, k: Key, n: nat, slot: Slot) {
    && MapOk(H, s) && n >= 1
    && OnWay(H, View(s.m, s.top, s.offs), k, n)
    && At(View(s.m, s.top, s.offs), Path(H, k, n)) == 0
    && slot == SlotOf(View(s.m, s.top, s.offs), Path(H, k, n))
  }

  lemma EndsAtMiss(H: Hasher<Key>, s: MapState, k: Key, n: nat, slot: Slot)
    requires EndsAt(H, s, k, n, slot)
    ensures k !in s.contents && |s.m| > 0
    ensures slot.Top? ==> slot.i < |s.top|
    ensures slot.Child? ==> Fits(s.m, slot.p) && slot.c < 4
  {
    hide OnWay, At, Path;
    PutMiss(H, s, k, n);
    SlotInRange(H, s, k, n);
  }

  ghost function Inserted(s: MapState, k: Key, slot: Slot, m1: Image, q: u32): MapState
    requires (slot.Top? ==> slot.i < |s.top|) && (slot.Child? ==> Fits(m1, slot.p) && slot.c < 4)
  {
    MapState(LinkImage(m1, slot, q), LinkTop(s.top, slot, q), s.offs + {q}, s.contents[k := 0])
  }

  lemma InsertExtends(H: Hasher<Key>, s: MapState, k: Key, n: nat, slot: Slot, m1: Image, q: u32)
    requires EndsAt(H, s, k, n, slot) && Appended(H, s.m, m1, q, k)
    ensures (slot.Top? ==> slot.i < |s.top|) && (slot.Child? ==> Fits(m1, slot.p) && slot.c < 4)
    ensures Extends(H, s, Inserted(s, k, slot, m1, q))
    ensures var s1 := Inserted(s, k, slot, m1, q); SafeRoots(s1.m, s1.top) && Lookup(H, s1.m, s1.top, k) == q
  {
    hide OnWay, At, Path, Extends, Lookup, Appended;
    PutExtends(H, s, k, n, m1, q);
    var s1 := Inserted(s, k, slot, m1, q);
    assert s1 == Published(H, s, k, n, m1, q);
    ExtendsSafe(H, s, s1);
  }

  /** The new node ends the image. */
  lemma InsertSize(H: Hasher<Key>, m: Image, m1: Image, q: nat, k: Key)
    requires Appended(H, m, m1, q, k)
    ensures |m1| == q + NODE_SIZE + |k|
  {
    hide Load32;
    assert KeyAt(m1, q) == k;
  }

  lemma ExtendsSafe(H: Hasher<Key>, s: MapState, s1: MapState)
    requires Extends(H, s, s1)
    ensures MapOk(H, s1) && SafeRoots(s.m, s.top) && SafeRoots(s1.m, s1.top) && SamePlaces(H, s, s1)
    ensures AllFit(s.m, s.offs) && AllFit(s1.m, s1.offs)
    ensures forall cap: u64 :: HeaderOk(s.m, s.offs, cap) ==> HeaderOk(s1.m, s1.offs, cap)
  {
  }

  /** What a Put does to the map. It is refused only for a key too long or when the arena has no room
      below 4 GiB, and then leaves the entries alone; an existing entry is returned untouched. */
  ghost predicate PutResult(H: Hasher<Key>, s: MapState, a: Model.Arena, s1: MapState, a1: Model.Arena,
                            k: Key, ok: bool, r: u32)
    requires Model.Valid(a)
  {
    && Extends(H, s, s1)
    && (k in s.contents ==> s1 == s && a1 == a && r == Lookup(H, s.m, s.top, k))
    && (k !in s.contents && |k| > 0xFFFF_FFFF ==> s1 == s && a1 == a && r == 0)
    && (k !in s.contents && |k| <= 0xFFFF_FFFF ==> a1 == NewArena(a, |k|, ok) && r == NewOffset(a, |k|, ok))
    && (k !in s.contents && r != 0 ==>
          && s1.contents == s.contents[k := 0] && s1.offs == s.offs + {r}
          && |s1.m| == r + NODE_SIZE + |k| && Lookup(H, s1.m, s1.top, k) == r)
    && (r == 0 ==>
          && s1.contents == s.contents && s1.offs == s.offs && s1.top == s.top
          && |s.m| <= |s1.m| && s1.m[..|s.m|] == s.m)
  }

  /** A key's register hashes are those of its eight bytes. */
  lemma WordHash(key: u64)
    ensures HashU64(key, WYP0) == BYTE_KEYS.digest(LE64(key))
    ensures forall r: u32 :: HashU64(key, ReseedSeed(r)) == BYTE_KEYS.reseed(LE64(key), r)
  {
    hide HashU64, Wyhash, Load64;
    RegisterHashAgrees(LE64(key), WYP0);
    forall r: u32 ensures HashU64(key, ReseedSeed(r)) == BYTE_KEYS.reseed(LE64(key), r) {
      RegisterHashAgrees(LE64(key), ReseedSeed(r));
    }
  }

  // -----------------------------------------------------------------------------
  // Init and Save.

  lemma EmptyMapOk(H: Hasher<Key>, s: MapState)
    requires |s.m| > 0 && s.top == seq(TOP_SIZE, _ => 0) && s.offs == {} && s.contents == map[]
    ensures MapOk(H, s)
  {
    hide WellFormed, Represents, At, Load32;
    var t := View(s.m, s.top, s.offs);
    assert t.heap == map[];
    EmptyIsWellFormed(H, t);
  }

  /** After the index copy and the header have been written. */
  lemma SaveDone(H: Hasher<Key>, s: MapState, m1: Image, io: nat)
    requires MapOk(H, s) && SavedAs(s.m, m1, s.top, io) && Clear(s.m, s.offs, io, io + INDEX_BYTES)
    ensures Saved(H, m1, s.top, s.offs, io)
    ensures MapOk(H, s.(m := m1)) && SamePlaces(H, s, s.(m := m1))
    ensures forall cap: u64 :: HeaderOk(m1, s.offs, cap)
  {
    hide WellFormed, View, Separate, LinksUp, HeaderOk, Represents, Lookup, HeaderAt, IndexAt, SafeRoots, Clear,
         Reachable;
    SaveHonest(H, s.m, m1, s.top, s.offs, io);
    HonestRootsSafe(H, m1, s.top, s.offs);
    forall j | j in s.contents ensures Lookup(H, m1, s.top, j) == Lookup(H, s.m, s.top, j) {
      LookupSameView(H, s.m, s.top, s.offs, s.contents, m1, j);
    }
  }

  /** A region above the old position is clear of nodes. */
  lemma FreshRegionClear(m: Image, offs: set<nat>, m1: Image, io: nat)
    requires AllFit(m, offs) && AllFit(m1, offs) && |m| <= io && |m| <= |m1| && m1[..|m|] == m
    ensures Clear(m1, offs, io, io + INDEX_BYTES)
  {
    hide NodeAt, Load32;
    forall o: nat | o in offs ensures End(m1, o) <= io {
      OldNodesSame(m, m1, o);
    }
  }

  lemma SamePlacesTransitive(H: Hasher<Key>, s: MapState, s1: MapState, s2: MapState)
    requires SafeRoots(s.m, s.top) && SafeRoots(s1.m, s1.top) && SafeRoots(s2.m, s2.top)
    requires SamePlaces(H, s, s1) && SamePlaces(H, s1, s2)
    ensures SamePlaces(H, s, s2)
  {
    hide Lookup, SafeRoots;
  }

  /** Save's choice of place, and how far the arena's position moved for it. */
  ghost predicate IndexPlaced(m: Image, a: Model.Arena, ok: bool, pos: nat, io: u32)
    requires Model.Valid(a) && |m| >= HEADER_SIZE
  {
    && io == IndexPlace(m, a, ok)
    && |m| <= pos
    && (Reusable(HeaderAt(m), a.reserved) ==> pos == |m|)
    && (!Reusable(HeaderAt(m), a.reserved) && io != 0 ==> |m| <= io && io % 16 == 0 && pos == io + INDEX_BYTES)
  }

  /** What Save does: with `io` nonzero the image is a saved one with the same entries; with 0 nothing
      that the map can see has changed. */
  ghost predicate SaveResult(H: Hasher<Key>, s: MapState, a: Model.Arena, s1: MapState, ok: bool, io: nat)
    requires Model.Valid(a)
  {
    && MapOk(H, s) && MapOk(H, s1) && SamePlaces(H, s, s1)
    && s1.top == s.top && s1.offs == s.offs && s1.contents == s.contents
    && io == (if |s.m| < CACHE_LINE then 0 else IndexPlace(s.m, a, ok))
    && (io != 0 ==> Saved(H, s1.m, s1.top, s1.offs, io))
    && (io != 0 ==> |s1.m| == if Reusable(HeaderAt(s.m), a.reserved) then |s.m| else io + INDEX_BYTES)
    && (io == 0 ==> Extends(H, s, s1) && |s.m| <= |s1.m| && s1.m[..|s.m|] == s.m)
  }

  lemma SaveRefused(H: Hasher<Key>, s: MapState, a: Model.Arena, ok: bool)
    requires MapOk(H, s) && |s.m| < CACHE_LINE && Model.Valid(a)
    ensures SaveResult(H, s, a, s, ok, 0)
  {
    hide MapOk, Extends, SamePlaces, IndexPlace;
    ExtendsRefl(H, s);
    ExtendsSafe(H, s, s);
  }

  /** After the place has been found. */
  lemma PlacedFacts(H: Hasher<Key>, s: MapState, a: Model.Arena, ok: bool, m1: Image, io: u32)
    requires MapOk(H, s) && AllFit(s.m, s.offs) && HeaderOk(s.m, s.offs, a.reserved) && Model.Valid(a)
    requires |s.m| <= |m1| && m1[..|s.m|] == s.m && IndexPlaced(s.m, a, ok, |m1|, io)
    ensures MapOk(H, s.(m := m1)) && AllFit(m1, s.offs)
    ensures io == 0 ==> SaveResult(H, s, a, s.(m := m1), ok, 0) && HeaderOk(m1, s.offs, a.reserved)
    ensures io != 0 ==> CACHE_LINE <= io && io % 4 == 0 && io + INDEX_BYTES <= |m1| && Clear(m1, s.offs, io, io + INDEX_BYTES)
  {
    assert |s.m| >= CACHE_LINE;
    hide MapOk, Extends, SamePlaces, HeaderAt, Clear, AllFit, HeaderOk, IndexPlaced, IndexPlace, SaveResult;
    GrowExtends(H, s, m1);
    ExtendsSafe(H, s, s.(m := m1));
    if io == 0 {
      NotPlaced(H, s, a, ok, m1);
    } else {
      PlacedClear(s.m, s.offs, a, ok, m1, io);
    }
  }

  lemma NotPlaced(H: Hasher<Key>, s: MapState, a: Model.Arena, ok: bool, m1: Image)
    requires Model.Valid(a) && CACHE_LINE <= |s.m| <= |m1| && m1[..|s.m|] == s.m && IndexPlaced(s.m, a, ok, |m1|, 0)
    requires Extends(H, s, s.(m := m1))
    ensures SaveResult(H, s, a, s.(m := m1), ok, 0)
  {
    hide MapOk, Extends, SamePlaces, HeaderAt, Reusable, IndexPlace, Saved;
    ExtendsSafe(H, s, s.(m := m1));
    ExtendsOk(H, s, s.(m := m1));
  }

  lemma ExtendsOk(H: Hasher<Key>, s: MapState, s1: MapState)
    requires Extends(H, s, s1)
    ensures MapOk(H, s) && MapOk(H, s1)
  {
  }

  lemma PlacedClear(m: Image, offs: set<nat>, a: Model.Arena, ok: bool, m1: Image, io: u32)
    requires AllFit(m, offs) && AllFit(m1, offs) && HeaderOk(m, offs, a.reserved) && Model.Valid(a)
    requires |m| <= |m1| && m1[..|m|] == m && IndexPlaced(m, a, ok, |m1|, io) && io != 0
    ensures CACHE_LINE <= io && io % 4 == 0 && io + INDEX_BYTES <= |m1| && Clear(m1, offs, io, io + INDEX_BYTES)
  {
    hide HeaderAt, Clear, AllFit, Model.AllocAligned, Reusable;
    if Reusable(HeaderAt(m), a.reserved) {
      assert m1 == m by { assert m1[..|m1|] == m1; }
      ReusableLine(HeaderAt(m), a.reserved);
    } else {
      hide HeaderOk, IndexPlace;
      FreshRegionClear(m, offs, m1, io);
      Quarter(io);
    }
  }

  lemma Quarter(io: nat)
    requires io % 16 == 0
    ensures io % 4 == 0
  {
    FourTimes(4 * (io / 16));
  }

  lemma FourTimes(q: nat)
    ensures 4 * q % 4 == 0
  {
  }

  lemma ReusableLine(h: Header, cap: u64)
    requires Reusable(h, cap)
    ensures h.indexOffset >= CACHE_LINE
  {
  }

  lemma SaveDoneResult(H: Hasher<Key>, s: MapState, a: Model.Arena, ok: bool, m1: Image, m2: Image, io: u32)
    requires MapOk(H, s) && Model.Valid(a) && io != 0
    requires |s.m| <= |m1| && m1[..|s.m|] == s.m && CACHE_LINE <= |s.m| && IndexPlaced(s.m, a, ok, |m1|, io)
    requires AllFit(m1, s.offs) && Clear(m1, s.offs, io, io + INDEX_BYTES) && SavedAs(m1, m2, s.top, io)
    ensures SaveResult(H, s, a, s.(m := m2), ok, io)
    ensures AllFit(m2, s.offs) && HeaderOk(m2, s.offs, a.reserved)
  {
    hide MapOk, Extends, SamePlaces, HeaderAt, Clear, AllFit, Reusable, IndexPlace, HeaderOk, Saved, SavedAs, SafeRoots;
    var (s1, s2) := (s.(m := m1), s.(m := m2));
    GrowExtends(H, s, m1);
    ExtendsSafe(H, s, s1);
    SaveDone(H, s1, m2, io);
    SavedSize(m1, m2, s.top, io);
    assert s1.(m := m2) == s2;
    MapOkSafe(H, s2);
    SamePlacesTransitive(H, s, s1, s2);
    MapFits(H, s2);
  }

  lemma SavedSize(m: Image, m1: Image, top: seq<u32>, io: nat)
    requires SavedAs(m, m1, top, io)
    ensures |m1| == |m|
  {
  }

  lemma MapFits(H: Hasher<Key>, s: MapState)
    requires MapOk(H, s)
    ensures AllFit(s.m, s.offs)
  {
  }

  /** Save, then Open of the same bytes anywhere else: accepted exactly when the trie is at most 256 deep,
      and then the map is the same map, valid for further Puts, with its header line in order. */
  lemma SaveThenOpen(H: Hasher<Key>, s: MapState, a: Model.Arena, s1: MapState, ok: bool, io: nat, mem: seq<u8>,
                     committed: u64)
    requires Model.Valid(a) && SaveResult(H, s, a, s1, ok, io) && io != 0
    requires |s1.m| <= committed <= |mem| < 0x1_0000_0000_0000_0000 && mem[..|s1.m|] == s1.m
    ensures SafeRoots(s1.m, s1.top)
    ensures Opens(mem, committed) <==> DepthAtMost(s1.m, s1.top, MAX_DEPTH)
    ensures HeaderAt(mem).highWater == |s1.m| && HeaderAt(mem).indexOffset == io && Opened(mem) == (s1.m, s1.top)
    ensures MapOk(H, s1) && s1.contents == s.contents && SamePlaces(H, s, s1)
    ensures AllFit(s1.m, s1.offs) && HeaderOk(s1.m, s1.offs, |mem|)
  {
    hide MapOk, Extends, SamePlaces, IndexPlace, SafeRoots, Clear, AllFit, Honest, AllLinked, IndexAt, HeaderAt;
    MapOkSafe(H, s1);
    MapFits(H, s1);
    RoundTrip(H, s1.m, s1.top, s1.offs, io, mem, committed);
  }
}
