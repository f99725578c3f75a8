/**
 HashMap's memory image: nodes at byte offsets in one arena, linked by 32-bit offsets.

 An image is the arena's bytes below the allocation high-water mark, so an index that is in range of
 the image is a read below the mark. Node layout: four child offsets at 0, digest at 16, value at 24,
 key length at 32, key bytes from 40.
 */
module HashMapLayout {
  import opened Machine
  import opened Bytes
  import opened Descent
  import opened TrieShape
  import opened HashFunc

  const NODE_SIZE: nat := 40
  const CACHE_LINE: nat := 64

  type Image = seq<u8>

  function Link(m: Image, off: nat, c: nat): u32
    requires off + 40 <= |m| && c < 4
  {
    Load32(m, off + 4 * c)
  }

  function KeyLen(m: Image, off: nat): u32
    requires off + 40 <= |m|
  {
    Load32(m, off + 32)
  }

  function Value(m: Image, off: nat): u64
    requires off + 40 <= |m|
  {
    Load64(m, off + 24)
  }

  predicate Fits(m: Image, off: nat) {
    off + 40 <= |m| && off + 40 + KeyLen(m, off) <= |m|
  }

  /** The end of a node and its inline key. */
  function End(m: Image, off: nat): nat
    requires off + 40 <= |m|
  {
    off + 40 + KeyLen(m, off)
  }

  function KeyAt(m: Image, off: nat): Key
    requires Fits(m, off)
  {
    m[off + 40..End(m, off)]
  }

  function NodeAt(m: Image, off: nat): Node<Key>
    requires Fits(m, off)
  {
    Node([Link(m, off, 0), Link(m, off, 1), Link(m, off, 2), Link(m, off, 3)],
         Load64(m, off + 16), KeyAt(m, off), Value(m, off))
  }

  // -----------------------------------------------------------------------------
  // Any image.

  predicate InBounds(m: Image, off: nat) {
    CACHE_LINE <= off && off % 8 == 0 && Fits(m, off)
  }

  /** Everything reachable from `off` is in bounds, and links only lead to higher offsets. */
  predicate Safe(m: Image, off: nat)
    decreases |m| - off
  {
    && InBounds(m, off)
    && forall c | 0 <= c < 4 :: var q := Link(m, off, c); q == 0 || (q > off && Safe(m, q))
  }

  predicate SafeRoots(m: Image, top: seq<u32>) {
    |top| == TOP_SIZE && forall i | 0 <= i < |top| :: top[i] == 0 || Safe(m, top[i])
  }

  predicate Hit(H: Hasher<Key>, m: Image, off: nat, k: Key)
    requires Fits(m, off)
  {
    Load64(m, off + 16) == H.digest(k) && KeyAt(m, off) == k
  }

  /** The first node on the walk for `k` from `cur` that matches, or 0. */
  function Find(H: Hasher<Key>, m: Image, k: Key, cur: nat, reg: Reg): nat
    requires cur == 0 || Safe(m, cur)
    decreases if cur == 0 then 0 else |m| - cur
  {
    if cur == 0 then 0
    else if Hit(H, m, cur, k) then cur
    else Find(H, m, k, Link(m, cur, Digit(reg)), Advance(H, k, reg))
  }

  function Lookup(H: Hasher<Key>, m: Image, top: seq<u32>, k: Key): nat
    requires SafeRoots(m, top)
  {
    Find(H, m, k, top[TopIndex(H, k)], Start(H, k))
  }

  // -----------------------------------------------------------------------------
  // Images built by Init and Put.

  ghost predicate AllFit(m: Image, offs: set<nat>) {
    forall o: nat :: o in offs ==> Fits(m, o)
  }

  ghost function View(m: Image, top: seq<u32>, offs: set<nat>): Trie<Key>
    requires AllFit(m, offs)
  {
    Trie(top, map o | o in offs :: NodeAt(m, o))
  }

  ghost predicate Separate(m: Image, offs: set<nat>)
    requires AllFit(m, offs)
  {
    forall o: nat, p: nat :: o in offs && p in offs && o < p ==> End(m, o) <= p
  }

  ghost predicate LinkUp(m: Image, offs: set<nat>, o: nat, c: nat)
    requires o + 40 <= |m| && c < 4
  {
    var q := Link(m, o, c); q == 0 || (q > o && q in offs)
  }

  ghost predicate LinksUp(m: Image, top: seq<u32>, offs: set<nat>)
    requires AllFit(m, offs)
  {
    && (forall i :: 0 <= i < |top| ==> top[i] == 0 || top[i] in offs)
    && (forall o: nat, c: nat :: o in offs && c < 4 ==> LinkUp(m, offs, o, c))
  }

  /** The nodes at `offs` are disjoint, linked upwards, and form a well-formed trie. */
  ghost predicate Honest(H: Hasher<Key>, m: Image, top: seq<u32>, offs: set<nat>) {
    && |m| > 0
    && AllFit(m, offs)
    && (forall o: nat :: o in offs ==> InBounds(m, o))
    && Separate(m, offs)
    && LinksUp(m, top, offs)
    && WellFormed(H, View(m, top, offs))
  }

  lemma {:induction false} HonestIsSafe(H: Hasher<Key>, m: Image, top: seq<u32>, offs: set<nat>, o: nat)
    requires Honest(H, m, top, offs) && o in offs
    ensures Safe(m, o)
    decreases |m| - o
  {
    hide WellFormed;
    forall c | 0 <= c < 4 ensures var q := Link(m, o, c); q == 0 || (q > o && Safe(m, q)) {
      var q := Link(m, o, c);
      assert LinkUp(m, offs, o, c);
      if q != 0 { HonestIsSafe(H, m, top, offs, q); }
    }
  }

  lemma HonestRootsSafe(H: Hasher<Key>, m: Image, top: seq<u32>, offs: set<nat>)
    requires Honest(H, m, top, offs)
    ensures SafeRoots(m, top)
  {
    assert Sized(View(m, top, offs));
    forall i | 0 <= i < |top| && top[i] != 0 ensures Safe(m, top[i]) {
      HonestIsSafe(H, m, top, offs, top[i]);
    }
  }

  /** One level down: the child slot read by the walk is the next slot on the key's path. */
  lemma NextOnPath(H: Hasher<Key>, m: Image, top: seq<u32>, offs: set<nat>, k: Key, n: nat, cur: nat)
    requires Honest(H, m, top, offs) && n >= 1
    requires cur == At(View(m, top, offs), Path(H, k, n)) && cur in offs
    ensures Digit(RegAt(H, k, n - 1)) < 4
    ensures At(View(m, top, offs), Path(H, k, n + 1)) == Link(m, cur, Digit(RegAt(H, k, n - 1)))
  {
    hide WellFormed, RegAt, Separate, LinksUp, At, Digit, Load32, Path;
    var d := Digit(RegAt(H, k, n - 1));
    var t := View(m, top, offs);
    PathInRange(H, k, n + 1, n);
    PathNext(H, k, n);
    AtExtend(t, Path(H, k, n), d);
    assert NodeAt(m, cur).child[d] == Link(m, cur, d);
  }

  lemma PathNext<K>(H: Hasher<K>, k: K, n: nat)
    requires n >= 1
    ensures Path(H, k, n + 1) == Path(H, k, n) + [Digit(RegAt(H, k, n - 1))]
    ensures Path(H, k, n + 1)[n] == Digit(RegAt(H, k, n - 1))
  {
    hide RegAt, Digit;
  }

  /** On an honest image the walk finds a key exactly when the trie holds it. */
  lemma {:induction false} FindHolds(H: Hasher<Key>, m: Image, top: seq<u32>, offs: set<nat>, k: Key, n: nat, cur: nat)
    requires Honest(H, m, top, offs) && (cur == 0 || Safe(m, cur)) && n >= 1
    requires OnWay(H, View(m, top, offs), k, n) && cur == At(View(m, top, offs), Path(H, k, n))
    ensures var t := View(m, top, offs); var r := Find(H, m, k, cur, RegAt(H, k, n - 1));
      && (r != 0 ==> Holds(t, k, r))
      && (r == 0 ==> forall p :: !Holds(t, k, p))
    decreases if cur == 0 then 0 else |m| - cur
  {
    hide At, Path, WellFormed, RegAt, Separate, LinksUp, Safe, Hit, Load32, Load64, View, OnWay;
    var t := View(m, top, offs);
    if cur == 0 {
      forall p ensures !Holds(t, k, p) { MissMeansAbsent(H, t, k, n, p); }
    } else {
      ReachableIsNode(H, t, Path(H, k, n));
      SafeStep(m, cur);
      ViewNode(H, m, top, offs, cur, k);
      if Hit(H, m, cur, k) {
        assert Reachable(t, cur);
      } else {
        NextOnPath(H, m, top, offs, k, n, cur);
        StillOnWay(H, t, k, n);
        RegNext(H, k, n);
        FindHolds(H, m, top, offs, k, n + 1, Link(m, cur, Digit(RegAt(H, k, n - 1))));
      }
    }
  }

  lemma SafeStep(m: Image, off: nat)
    requires Safe(m, off)
    ensures InBounds(m, off)
    ensures forall c: nat :: c < 4 ==> var q := Link(m, off, c); q == 0 || (q > off && Safe(m, q))
  {
  }

  /** The fast reject on the stored digest never rejects the right key. */
  lemma ViewNode(H: Hasher<Key>, m: Image, top: seq<u32>, offs: set<nat>, off: nat, k: Key)
    requires Honest(H, m, top, offs) && off in View(m, top, offs).heap
    ensures off in offs && View(m, top, offs).heap[off] == NodeAt(m, off)
    ensures Hit(H, m, off, k) <==> KeyOf(View(m, top, offs), off) == k
  {
    hide At, Load32, Load64;
  }

  lemma StillOnWay<K(!new)>(H: Hasher<K>, t: Trie<K>, k: K, n: nat)
    requires OnWay(H, t, k, n)
    requires var p := At(t, Path(H, k, n)); p != 0 && p in t.heap && KeyOf(t, p) != k
    ensures OnWay(H, t, k, n + 1)
  {
    hide At, Path;
  }

  lemma RegNext<K>(H: Hasher<K>, k: K, n: nat)
    requires n >= 1
    ensures RegAt(H, k, n) == Advance(H, k, RegAt(H, k, n - 1))
  {
  }

  /** Get is right: the offset returned is that of the key's node, and 0 means the key is absent. */
  lemma LookupCorrect(H: Hasher<Key>, m: Image, top: seq<u32>, offs: set<nat>, k: Key, contents: map<Key, u64>)
    requires Honest(H, m, top, offs) && Represents(View(m, top, offs), contents)
    ensures SafeRoots(m, top)
    ensures var r := Lookup(H, m, top, k);
      && (r != 0 <==> k in contents)
      && (r != 0 ==> r in offs && KeyAt(m, r) == k && Value(m, r) == contents[k])
  {
    hide WellFormed, Separate, LinksUp;
    HonestRootsSafe(H, m, top, offs);
    var t := View(m, top, offs);
    PathInRange(H, k, 1, 0);
    FindHolds(H, m, top, offs, k, 1, top[TopIndex(H, k)]);
    var r := Lookup(H, m, top, k);
    if r != 0 {
      HeldValue(t, k, r, contents);
    } else {
      assert forall p :: !Holds(t, k, p);
    }
  }
}
