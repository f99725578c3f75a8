/** How Put changes the image: a node appended above everything else, then one 32-bit link written. */
module HashMapPut {
  import opened Machine
  import opened Bytes
  import opened Descent
  import opened TrieShape
  import opened HashFunc
  import opened HashMapLayout

  lemma Put32Same(m: Image, off: nat, x: u32, i: nat, j: nat)
    requires off + 4 <= |m| && i <= j <= |m| && (j <= off || off + 4 <= i)
    ensures Put32(m, off, x)[i..j] == m[i..j]
  {
    var r := Put32(m, off, x);
    forall k | i <= k < j ensures r[k] == m[k] {
      if k < off { assert r[k] == m[..off][k]; } else { assert r[k] == m[off + 4..][k - off - 4]; }
    }
  }

  lemma Put32Prefix(m: seq<u8>, n: nat, off: nat, x: u32)
    requires off + 4 <= n <= |m|
    ensures Put32(m, off, x)[..n] == Put32(m[..n], off, x)
  {
  }

  lemma Put32Load(m: Image, off: nat, x: u32)
    requires off + 4 <= |m|
    ensures Load32(Put32(m, off, x), off) == x
  {
    hide Load32;
    LoadSlice(Put32(m, off, x), off, 0, LE32(x)) by {
      assert Put32(m, off, x)[off..off + 4] == LE32(x) == LE32(x)[0..4];
    }
  }

  lemma SubSlice(m: seq<u8>, n: seq<u8>, lo: nat, hi: nat, i: nat, j: nat)
    requires lo <= i <= j <= hi <= |m| && hi <= |n| && m[lo..hi] == n[lo..hi]
    ensures m[i..j] == n[i..j]
  {
    forall k | i <= k < j ensures m[k] == n[k] {
      assert m[k] == m[lo..hi][k - lo] && n[k] == n[lo..hi][k - lo];
    }
  }

  lemma LoadSame(m: Image, n: Image, i: nat, lo: nat, hi: nat)
    requires lo <= i && i + 4 <= hi <= |m| && hi <= |n| && m[lo..hi] == n[lo..hi]
    ensures Load32(m, i) == Load32(n, i)
  {
    hide Load32;
    SubSlice(m, n, lo, hi, i, i + 4);
    LoadSlice(m, i, i, n);
  }

  /** A node is determined by its own bytes. */
  lemma NodeSame(m: Image, n: Image, o: nat)
    requires Fits(m, o) && End(m, o) <= |n| && m[o..End(m, o)] == n[o..End(m, o)]
    ensures Fits(n, o) && End(n, o) == End(m, o) && NodeAt(n, o) == NodeAt(m, o)
    ensures forall c: nat :: c < 4 ==> Link(n, o, c) == Link(m, o, c)
  {
    hide Load32;
    var e := End(m, o);
    LoadSame(m, n, o + 32, o, e);
    forall c: nat | c < 4 ensures Link(n, o, c) == Link(m, o, c) { LoadSame(m, n, o + 4 * c, o, e); }
    LoadSame(m, n, o + 16, o, e);
    LoadSame(m, n, o + 20, o, e);
    LoadSame(m, n, o + 24, o, e);
    LoadSame(m, n, o + 28, o, e);
    SubSlice(m, n, o, e, o + 40, e);
  }

  // -----------------------------------------------------------------------------
  // The node.

  /** `m1` is `m` with a fresh, childless node for `k` at `q`, above everything in `m`. */
  ghost predicate Appended(H: Hasher<Key>, m: Image, m1: Image, q: nat, k: Key) {
    && |m| <= q && CACHE_LINE <= q && q % 8 == 0 && Fits(m1, q) && End(m1, q) == |m1|
    && m1[..|m|] == m
    && NodeAt(m1, q) == Node([0, 0, 0, 0], H.digest(k), k, 0)
  }

  lemma OldNodesSame(m: Image, m1: Image, o: nat)
    requires Fits(m, o) && |m| <= |m1| && m1[..|m|] == m
    ensures Fits(m1, o) && End(m1, o) == End(m, o) && NodeAt(m1, o) == NodeAt(m, o)
    ensures forall c: nat :: c < 4 ==> Link(m1, o, c) == Link(m, o, c)
  {
    hide NodeAt;
    assert m[0..|m|] == m && m1[0..|m|] == m1[..|m|];
    SubSlice(m, m1, 0, |m|, o, End(m, o));
    NodeSame(m, m1, o);
  }

  lemma AppendView(H: Hasher<Key>, m: Image, top: seq<u32>, offs: set<nat>, m1: Image, q: nat, k: Key)
    requires Honest(H, m, top, offs) && Appended(H, m, m1, q, k)
    ensures AllFit(m1, offs + {q}) && q !in offs
    ensures View(m1, top, offs + {q}) == View(m, top, offs).(heap := View(m, top, offs).heap[q := NodeAt(m1, q)])
  {
    hide WellFormed, NodeAt, Separate, LinksUp, Load32;
    forall o: nat | o in offs ensures Fits(m1, o) && NodeAt(m1, o) == NodeAt(m, o) {
      OldNodesSame(m, m1, o);
    }
  }

  lemma AppendHonest(H: Hasher<Key>, m: Image, top: seq<u32>, offs: set<nat>, m1: Image, q: nat, k: Key)
    requires Honest(H, m, top, offs) && Appended(H, m, m1, q, k)
    ensures Honest(H, m1, top, offs + {q})
    ensures forall path :: At(View(m1, top, offs + {q}), path) == At(View(m, top, offs), path)
  {
    hide WellFormed, At, Load32;
    AppendView(H, m, top, offs, m1, q, k);
    var (t, t1) := (View(m, top, offs), View(m1, top, offs + {q}));
    forall o: nat | o in offs
      ensures Fits(m1, o) && End(m1, o) == End(m, o) && forall c: nat :: c < 4 ==> Link(m1, o, c) == Link(m, o, c)
    {
      OldNodesSame(m, m1, o);
    }
    assert forall c: nat :: c < 4 ==> Link(m1, q, c) == NodeAt(m1, q).child[c];
    AppendWellFormed(H, t, t1, q, k);
    assert LinksUp(m1, top, offs + {q}) by {
      forall o: nat, c: nat | o in offs + {q} && c < 4 ensures LinkUp(m1, offs + {q}, o, c) {
        if o in offs { assert LinkUp(m, offs, o, c); }
      }
    }
  }

  lemma AppendWellFormed<K(!new)>(H: Hasher<K>, t: Trie<K>, t1: Trie<K>, q: nat, k: K)
    requires WellFormed(H, t) && q != 0 && q !in t.heap
    requires t1 == t.(heap := t.heap[q := Node([0, 0, 0, 0], H.digest(k), k, 0)])
    ensures WellFormed(H, t1)
    ensures forall path :: At(t1, path) == At(t, path)
  {
    hide At;
    SameLinksWellFormed(H, t, t1);
  }

  // -----------------------------------------------------------------------------
  // The link.

  function LinkImage(m: Image, slot: Slot, q: u32): (r: Image)
    requires slot.Child? ==> Fits(m, slot.p) && slot.c < 4
    ensures |r| == |m|
  {
    if slot.Child? then Put32(m, slot.p + 4 * slot.c, q) else m
  }

  function LinkTop(top: seq<u32>, slot: Slot, q: u32): seq<u32>
    requires slot.Top? ==> slot.i < |top|
  {
    if slot.Top? then top[slot.i := q] else top
  }

  /** Writing one child field changes that field of that node. */
  lemma LinkOwner(m: Image, p: nat, c: nat, q: u32)
    requires Fits(m, p) && c < 4
    ensures var r := Put32(m, p + 4 * c, q);
      && Fits(r, p) && End(r, p) == End(m, p)
      && NodeAt(r, p) == NodeAt(m, p).(child := NodeAt(m, p).child[c := q])
  {
    hide Load32;
    var r := Put32(m, p + 4 * c, q);
    var at := p + 4 * c;
    Put32Load(m, at, q);
    forall d: nat | d < 4 && d != c ensures Link(r, p, d) == Link(m, p, d) {
      Put32Same(m, at, q, p + 4 * d, p + 4 * d + 4);
      LoadSame(m, r, p + 4 * d, p + 4 * d, p + 4 * d + 4);
    }
    Put32Same(m, at, q, p + 16, End(m, p));
    LoadSame(m, r, p + 32, p + 16, End(m, p));
    LoadSame(m, r, p + 16, p + 16, End(m, p));
    LoadSame(m, r, p + 20, p + 16, End(m, p));
    LoadSame(m, r, p + 24, p + 16, End(m, p));
    LoadSame(m, r, p + 28, p + 16, End(m, p));
    SubSlice(m, r, p + 16, End(m, p), p + 40, End(m, p));
    assert NodeAt(r, p).child == NodeAt(m, p).child[c := q];
  }

  lemma LinkOthers(m: Image, offs: set<nat>, p: nat, c: nat, q: u32, o: nat)
    requires AllFit(m, offs) && Separate(m, offs) && p in offs && o in offs && o != p && c < 4
    ensures var r := Put32(m, p + 4 * c, q); Fits(r, o) && End(r, o) == End(m, o) && NodeAt(r, o) == NodeAt(m, o)
  {
    hide Load32, NodeAt;
    Put32Same(m, p + 4 * c, q, o, End(m, o));
    NodeSame(m, Put32(m, p + 4 * c, q), o);
  }

  lemma LinkView(m: Image, top: seq<u32>, offs: set<nat>, slot: Slot, q: u32)
    requires AllFit(m, offs) && Separate(m, offs) && HasSlot(View(m, top, offs), slot)
    ensures slot.Child? ==> slot.p in offs && slot.c < 4
    ensures AllFit(LinkImage(m, slot, q), offs)
    ensures View(LinkImage(m, slot, q), LinkTop(top, slot, q), offs) == Write(View(m, top, offs), slot, q)
    ensures forall o: nat :: o in offs ==> End(LinkImage(m, slot, q), o) == End(m, o)
  {
    hide Load32, NodeAt, Put32;
    if slot.Child? {
      var (p, c) := (slot.p, slot.c);
      assert |NodeAt(m, p).child| == 4 by { FourChildren(m, p); }
      LinkOwner(m, p, c, q);
      forall o: nat | o in offs && o != p
        ensures Fits(LinkImage(m, slot, q), o) && End(LinkImage(m, slot, q), o) == End(m, o)
        ensures NodeAt(LinkImage(m, slot, q), o) == NodeAt(m, o)
      {
        LinkOthers(m, offs, p, c, q, o);
      }
    }
  }

  lemma FourChildren(m: Image, p: nat)
    requires Fits(m, p)
    ensures |NodeAt(m, p).child| == 4
    ensures forall c: nat :: c < 4 ==> NodeAt(m, p).child[c] == Link(m, p, c)
  {
  }

  /** Linking the appended node keeps the image honest and adds one entry with value 0. */
  lemma LinkHonest(H: Hasher<Key>, m: Image, top: seq<u32>, offs: set<nat>, k: Key, n: nat, q: u32,
                   contents: map<Key, u64>)
    requires Honest(H, m, top, offs) && Represents(View(m, top, offs), contents)
    requires Publishable(H, View(m, top, offs), k, n, q) && q in offs && View(m, top, offs).heap[q].value == 0
    requires var slot := SlotOf(View(m, top, offs), Path(H, k, n)); slot.Child? ==> slot.p < q
    ensures var t := View(m, top, offs); var slot := SlotOf(t, Path(H, k, n));
      && (slot.Child? ==> slot.p in offs && slot.c < 4)
      && Honest(H, LinkImage(m, slot, q), LinkTop(top, slot, q), offs)
      && View(LinkImage(m, slot, q), LinkTop(top, slot, q), offs) == Write(t, slot, q)
      && k !in contents && Represents(Write(t, slot, q), contents[k := 0])
      && Linked(t, Write(t, slot, q), Path(H, k, n), q)
  {
    hide WellFormed, At, Path, Load32, NodeAt, Represents, Put32;
    var t := View(m, top, offs);
    var slot := SlotOf(t, Path(H, k, n));
    LinkView(m, top, offs, slot, q);
    PublishCorrect(H, t, k, n, q, contents);
    LinkBounds(m, top, offs, slot, q);
  }

  lemma LinkBounds(m: Image, top: seq<u32>, offs: set<nat>, slot: Slot, q: u32)
    requires AllFit(m, offs) && Separate(m, offs) && LinksUp(m, top, offs)
    requires HasSlot(View(m, top, offs), slot) && q in offs && (slot.Child? ==> slot.p < q)
    requires forall o: nat :: o in offs ==> InBounds(m, o)
    ensures slot.Child? ==> slot.p in offs && slot.c < 4
    ensures var (m', top') := (LinkImage(m, slot, q), LinkTop(top, slot, q));
      && AllFit(m', offs) && Separate(m', offs) && LinksUp(m', top', offs)
      && (forall o: nat :: o in offs ==> InBounds(m', o))
  {
    hide Load32, NodeAt, Put32;
    LinkView(m, top, offs, slot, q);
    var (m', top') := (LinkImage(m, slot, q), LinkTop(top, slot, q));
    forall o: nat, c: nat | o in offs && c < 4 ensures LinkUp(m', offs, o, c) {
      assert LinkUp(m, offs, o, c);
      FourChildren(m, o);
      FourChildren(m', o);
      assert View(m', top', offs).heap[o] == NodeAt(m', o) && View(m, top, offs).heap[o] == NodeAt(m, o);
    }
  }

  // -----------------------------------------------------------------------------
  // Writing a value through the pointer that Put or Get returned.

  lemma Put64Same(m: Image, off: nat, x: u64, i: nat, j: nat)
    requires off + 8 <= |m| && i <= j <= |m| && (j <= off || off + 8 <= i)
    ensures Put64(m, off, x)[i..j] == m[i..j]
  {
    Put32Same(m, off, x % 0x1_0000_0000, i, j);
    Put32Same(Put32(m, off, x % 0x1_0000_0000), off + 4, x / 0x1_0000_0000, i, j);
  }

  lemma Put64Prefix(m: seq<u8>, n: nat, off: nat, x: u64)
    requires off + 8 <= n <= |m|
    ensures Put64(m, off, x)[..n] == Put64(m[..n], off, x)
  {
    hide Put32;
    Put32Prefix(m, n, off, x % 0x1_0000_0000);
    Put32Prefix(Put32(m, off, x % 0x1_0000_0000), n, off + 4, x / 0x1_0000_0000);
  }

  lemma Put64Load(m: Image, off: nat, x: u64)
    requires off + 8 <= |m|
    ensures Load64(Put64(m, off, x), off) == x
  {
    hide Load32, Put32;
    var (a, b) := (Put32(m, off, x % 0x1_0000_0000), Put64(m, off, x));
    Put32Load(m, off, x % 0x1_0000_0000);
    Put32Load(a, off + 4, x / 0x1_0000_0000);
    Put32Same(a, off + 4, x / 0x1_0000_0000, off, off + 4);
    LoadSame(a, b, off, off, off + 4);
  }

  lemma StoreOwner(m: Image, p: nat, v: u64)
    requires Fits(m, p)
    ensures var r := Put64(m, p + 24, v);
      && Fits(r, p) && End(r, p) == End(m, p)
      && NodeAt(r, p) == NodeAt(m, p).(value := v)
  {
    hide Load32, Put64;
    var r := Put64(m, p + 24, v);
    Put64Load(m, p + 24, v);
    Put64Same(m, p + 24, v, p, p + 24);
    Put64Same(m, p + 24, v, p + 32, End(m, p));
    forall d: nat | d < 4 ensures Link(r, p, d) == Link(m, p, d) { LoadSame(m, r, p + 4 * d, p, p + 24); }
    LoadSame(m, r, p + 16, p, p + 24);
    LoadSame(m, r, p + 20, p, p + 24);
    LoadSame(m, r, p + 32, p + 32, End(m, p));
    SubSlice(m, r, p + 32, End(m, p), p + 40, End(m, p));
  }

  lemma StoreView(m: Image, top: seq<u32>, offs: set<nat>, p: nat, v: u64)
    requires AllFit(m, offs) && Separate(m, offs) && p in offs
    ensures AllFit(Put64(m, p + 24, v), offs)
    ensures View(Put64(m, p + 24, v), top, offs) == StoreValue(View(m, top, offs), p, v)
    ensures forall o: nat :: o in offs ==> End(Put64(m, p + 24, v), o) == End(m, o)
  {
    hide Load32, NodeAt, Put64;
    StoreOwner(m, p, v);
    forall o: nat | o in offs && o != p
      ensures Fits(Put64(m, p + 24, v), o) && End(Put64(m, p + 24, v), o) == End(m, o)
      ensures NodeAt(Put64(m, p + 24, v), o) == NodeAt(m, o)
    {
      Put64Same(m, p + 24, v, o, End(m, o));
      NodeSame(m, Put64(m, p + 24, v), o);
    }
  }

  /** Storing a value keeps the image honest and overwrites exactly that node's key. */
  lemma StoreHonest(H: Hasher<Key>, m: Image, top: seq<u32>, offs: set<nat>, p: nat, v: u64, contents: map<Key, u64>)
    requires Honest(H, m, top, offs) && Represents(View(m, top, offs), contents) && p in offs
    requires Reachable(View(m, top, offs), p)
    ensures Honest(H, Put64(m, p + 24, v), top, offs)
    ensures View(Put64(m, p + 24, v), top, offs) == StoreValue(View(m, top, offs), p, v)
    ensures Represents(View(Put64(m, p + 24, v), top, offs), contents[KeyAt(m, p) := v])
    ensures forall path :: At(View(Put64(m, p + 24, v), top, offs), path) == At(View(m, top, offs), path)
  {
    hide WellFormed, At, Load32, NodeAt, Represents, Put64;
    StoreView(m, top, offs, p, v);
    StoreCorrect(H, View(m, top, offs), p, v, contents);
    var m' := Put64(m, p + 24, v);
    assert KeyOf(View(m, top, offs), p) == KeyAt(m, p) by { KeyInView(m, top, offs, p); }
    forall o: nat, c: nat | o in offs && c < 4 ensures LinkUp(m', offs, o, c) {
      assert LinkUp(m, offs, o, c);
      FourChildren(m, o);
      FourChildren(m', o);
      assert View(m', top, offs).heap[o] == NodeAt(m', o) && View(m, top, offs).heap[o] == NodeAt(m, o);
    }
  }

  lemma KeyInView(m: Image, top: seq<u32>, offs: set<nat>, p: nat)
    requires AllFit(m, offs) && p in offs
    ensures KeyOf(View(m, top, offs), p) == KeyAt(m, p)
  {
  }

  // -----------------------------------------------------------------------------
  // What later operations never undo.

  /** Every node is linked in. */
  ghost predicate AllLinked(m: Image, top: seq<u32>, offs: set<nat>)
    requires AllFit(m, offs)
  {
    forall o: nat :: o in offs ==> Reachable(View(m, top, offs), o)
  }

  /** Keys found before are found at the same place afterwards. */
  lemma LookupStable(H: Hasher<Key>, m: Image, top: seq<u32>, offs: set<nat>, contents: map<Key, u64>,
                     m': Image, top': seq<u32>, offs': set<nat>, contents': map<Key, u64>, k: Key)
    requires Honest(H, m, top, offs) && Represents(View(m, top, offs), contents)
    requires Honest(H, m', top', offs') && Represents(View(m', top', offs'), contents')
    requires k in contents && k in contents'
    requires var (t, t') := (View(m, top, offs), View(m', top', offs'));
      forall path :: At(t, path) != 0 ==> At(t', path) == At(t, path) && At(t, path) in t'.heap && At(t, path) in t.heap
                                          && KeyOf(t', At(t, path)) == KeyOf(t, At(t, path))
    ensures SafeRoots(m, top) && SafeRoots(m', top')
    ensures Lookup(H, m', top', k) == Lookup(H, m, top, k)
  {
    hide At, Path, Load32, NodeAt, Represents, View, Find, Lookup, WellFormed;
    var (t, t') := (View(m, top, offs), View(m', top', offs'));
    LookupHolds(H, m, top, offs, k, contents);
    LookupHolds(H, m', top', offs', k, contents');
    var r := Lookup(H, m, top, k);
    var path :| At(t, path) == r;
    assert At(t', path) == r;
    SameKeySameNode(H, t', r, Lookup(H, m', top', k));
  }

  lemma LookupHolds(H: Hasher<Key>, m: Image, top: seq<u32>, offs: set<nat>, k: Key, contents: map<Key, u64>)
    requires Honest(H, m, top, offs) && Represents(View(m, top, offs), contents) && k in contents
    ensures SafeRoots(m, top) && Holds(View(m, top, offs), k, Lookup(H, m, top, k))
  {
    hide WellFormed, Load32, NodeAt, Find, Represents;
    HonestRootsSafe(H, m, top, offs);
    var t := View(m, top, offs);
    HonestTop(H, m, top, offs);
    PathInRange(H, k, 1, 0);
    FindHolds(H, m, top, offs, k, 1, top[TopIndex(H, k)]);
    if Lookup(H, m, top, k) == 0 {
      LookupCorrect(H, m, top, offs, k, contents);
    }
  }

  lemma HonestTop(H: Hasher<Key>, m: Image, top: seq<u32>, offs: set<nat>)
    requires Honest(H, m, top, offs)
    ensures |top| == TOP_SIZE
  {
  }
}
