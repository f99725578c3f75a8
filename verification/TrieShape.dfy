/**
 The 4-ary hash trie as a pointer graph: 4096 top slots and nodes with four child slots, 0 = empty.

 `At` follows a sequence of slot choices from the top. The invariant `WellFormed` says that every
 reachable node sits on the path of its own key and that no two reachable nodes hold the same key.
 Writing an unreachable, childless node for key k into the empty slot at the end of k's walk is the
 only structural change any of the tries makes; `Publish` is the effect of that write.
 */
module TrieShape {
  import opened Machine
  import opened Descent

  datatype Node<K> = Node(child: seq<nat>, hash: u64, key: K, value: u64)

  datatype Trie<K> = Trie(top: seq<nat>, heap: map<nat, Node<K>>)

  /** A physical slot: an entry of the top array, or a child field of a node. */
  datatype Slot = Top(i: nat) | Child(p: nat, c: nat)

  predicate Sized<K>(t: Trie<K>) {
    && |t.top| == TOP_SIZE
    && 0 !in t.heap
    && forall p :: p in t.heap ==> |t.heap[p].child| == 4
  }

  predicate HasSlot<K>(t: Trie<K>, s: Slot) {
    match s
    case Top(i) => i < |t.top|
    case Child(p, c) => p in t.heap && c < |t.heap[p].child|
  }

  function Read<K>(t: Trie<K>, s: Slot): nat
    requires HasSlot(t, s)
  {
    match s
    case Top(i) => t.top[i]
    case Child(p, c) => t.heap[p].child[c]
  }

  function Write<K>(t: Trie<K>, s: Slot, q: nat): Trie<K>
    requires HasSlot(t, s)
  {
    match s
    case Top(i) => t.(top := t.top[i := q])
    case Child(p, c) => t.(heap := t.heap[p := t.heap[p].(child := t.heap[p].child[c := q])])
  }

  /** The pointer found by following `path`, or 0. */
  function At<K>(t: Trie<K>, path: seq<nat>): nat
    decreases |path|
  {
    if |path| == 0 then 0
    else
      var last := |path| - 1;
      if last == 0 then
        if path[0] < |t.top| then t.top[path[0]] else 0
      else
        var p := At(t, path[..last]);
        if p in t.heap && path[last] < |t.heap[p].child| then t.heap[p].child[path[last]] else 0
  }

  /** One more choice reads a child field of the node it starts from. */
  lemma AtExtend<K>(t: Trie<K>, path: seq<nat>, c: nat)
    requires |path| >= 1
    ensures var p := At(t, path);
      At(t, path + [c]) == if p in t.heap && c < |t.heap[p].child| then t.heap[p].child[c] else 0
  {
    assert (path + [c])[..|path|] == path;
  }

  /** The physical slot that `path` ends in. */
  function SlotOf<K>(t: Trie<K>, path: seq<nat>): Slot
    requires |path| > 0
  {
    var last := |path| - 1;
    if last == 0 then Top(path[0]) else Child(At(t, path[..last]), path[last])
  }

  ghost predicate Reachable<K>(t: Trie<K>, p: nat) {
    p != 0 && exists path :: At(t, path) == p
  }

  function KeyOf<K>(t: Trie<K>, p: nat): K
    requires p in t.heap
  {
    t.heap[p].key
  }

  ghost predicate WellFormed<K(!new)>(H: Hasher<K>, t: Trie<K>) {
    && Sized(t)
    && (forall p :: p in t.heap ==> t.heap[p].hash == H.digest(t.heap[p].key))
    && (forall path :: At(t, path) != 0 ==> At(t, path) in t.heap)
    && (forall path :: At(t, path) != 0 ==> path == Path(H, KeyOf(t, At(t, path)), |path|))
    && (forall a, b :: At(t, a) != 0 && At(t, b) != 0 && KeyOf(t, At(t, a)) == KeyOf(t, At(t, b)) ==> a == b)
  }

  /** The walk for `k` has passed `n - 1` nodes, none of them holding `k`, and now looks at slot `n`. */
  ghost predicate OnWay<K(!new)>(H: Hasher<K>, t: Trie<K>, k: K, n: nat) {
    n >= 1
    && forall m :: 1 <= m < n ==>
      var p := At(t, Path(H, k, m)); p != 0 && p in t.heap && KeyOf(t, p) != k
  }

  /** `p` is the reachable node that holds `k`. */
  ghost predicate Holds<K(!new)>(t: Trie<K>, k: K, p: nat) {
    Reachable(t, p) && p in t.heap && KeyOf(t, p) == k
  }

  ghost predicate HasKey<K(!new)>(t: Trie<K>, k: K) {
    exists p :: Holds(t, k, p)
  }

  ghost predicate HasEntry<K(!new)>(t: Trie<K>, k: K, v: u64) {
    exists p :: Holds(t, k, p) && t.heap[p].value == v
  }

  /** The finite map that the trie represents. */
  ghost predicate Represents<K(!new)>(t: Trie<K>, m: map<K, u64>) {
    && (forall p :: Reachable(t, p) && p in t.heap ==> KeyOf(t, p) in m && m[KeyOf(t, p)] == t.heap[p].value)
    && (forall k :: k in m ==> exists p :: Holds(t, k, p))
  }

  lemma {:induction false} RepresentsUnique<K(!new)>(t: Trie<K>, m: map<K, u64>, n: map<K, u64>)
    requires Represents(t, m) && Represents(t, n)
    ensures m == n
  {
    forall k | k in m ensures k in n && m[k] == n[k] {
      var p :| Holds(t, k, p);
    }
    forall k | k in n ensures k in m {
      var p :| Holds(t, k, p);
    }
  }

  lemma HeldValue<K(!new)>(t: Trie<K>, k: K, p: nat, m: map<K, u64>)
    requires Represents(t, m) && Holds(t, k, p)
    ensures k in m && m[k] == t.heap[p].value
  {
  }

  lemma ReachableIsNode<K(!new)>(H: Hasher<K>, t: Trie<K>, path: seq<nat>)
    requires WellFormed(H, t) && At(t, path) != 0
    ensures At(t, path) in t.heap
  {
    hide At, Path;
  }

  /** What lies below an empty slot is empty. */
  lemma {:induction false} PrefixClosed<K>(t: Trie<K>, path: seq<nat>, m: nat)
    requires 1 <= m <= |path| && At(t, path) != 0 && 0 !in t.heap
    ensures At(t, path[..m]) != 0
    decreases |path|
  {
    if m == |path| {
      assert path[..m] == path;
    } else {
      var front := path[..|path| - 1];
      PrefixClosed(t, front, m);
      assert front[..m] == path[..m];
    }
  }

  /** A walk for `k` that ends at an empty slot without meeting `k` proves that `k` is absent. */
  lemma {:induction false} MissMeansAbsent<K(!new)>(H: Hasher<K>, t: Trie<K>, k: K, n: nat, p: nat)
    requires WellFormed(H, t) && OnWay(H, t, k, n) && At(t, Path(H, k, n)) == 0
    ensures !Holds(t, k, p)
  {
    if Holds(t, k, p) {
      var path :| At(t, path) == p;
      var j := |path|;
      assert path == Path(H, k, j);
      if j >= n {
        PathPrefix(H, k, n, j);
        PrefixClosed(t, path, n);
      }
    }
  }

  /** The walk for `k` always looks at a physical slot, and what it reads there is the pointer at the end of its path. */
  lemma {:induction false} SlotOnPath<K(!new)>(H: Hasher<K>, t: Trie<K>, k: K, n: nat)
    requires WellFormed(H, t) && OnWay(H, t, k, n)
    ensures HasSlot(t, SlotOf(t, Path(H, k, n)))
    ensures Read(t, SlotOf(t, Path(H, k, n))) == At(t, Path(H, k, n))
  {
    var path := Path(H, k, n);
    PathInRange(H, k, n, n - 1);
    if n > 1 {
      PathPrefix(H, k, n - 1, n);
      assert path[..n - 1] == Path(H, k, n - 1);
    }
  }

  /** A reachable node has exactly one path. */
  lemma {:induction false} OnePath<K(!new)>(H: Hasher<K>, t: Trie<K>, a: seq<nat>, b: seq<nat>)
    requires WellFormed(H, t) && At(t, a) == At(t, b) != 0
    ensures a == b
  {
    assert KeyOf(t, At(t, a)) == KeyOf(t, At(t, b));
  }

  // -----------------------------------------------------------------------------
  // The write that publishes a node, first as a graph operation on an arbitrary path.

  ghost predicate Injective<K>(t: Trie<K>) {
    forall a, b :: At(t, a) == At(t, b) != 0 ==> a == b
  }

  /** `target` ends in an existing empty slot, and `q` is a childless node that nothing points to. */
  ghost predicate Linkable<K>(t: Trie<K>, target: seq<nat>, q: nat) {
    && |target| >= 1
    && HasSlot(t, SlotOf(t, target))
    && At(t, target) == 0
    && q in t.heap && q != 0 && t.heap[q].child == [0, 0, 0, 0]
    && !Reachable(t, q)
  }

  /** One level further down. */
  lemma LinkBelow<K>(t: Trie<K>, target: seq<nat>, q: nat, front: seq<nat>, last: nat)
    requires Sized(t) && Injective(t) && Linkable(t, target, q) && |front| > 0
    requires var t' := Write(t, SlotOf(t, target), q); At(t', front) == if front == target then q else At(t, front)
    ensures var t' := Write(t, SlotOf(t, target), q);
      At(t', front + [last]) == if front + [last] == target then q else At(t, front + [last])
  {
    hide Reachable, At, Injective, SlotOf;
    var slot := SlotOf(t, target);
    AtExtend(t, front, last);
    AtExtend(Write(t, slot, q), front, last);
    SlotIsPath(t, target, front, last);
    if front == target {
      LinkedNodeIsChildless(t, target, q);
    } else if slot != Child(At(t, front), last) {
      ChildUntouched(t, target, q, At(t, front), last);
    }
  }

  /** A physical child slot of a reachable node lies on one path only. */
  lemma SlotIsPath<K>(t: Trie<K>, target: seq<nat>, front: seq<nat>, last: nat)
    requires Sized(t) && Injective(t) && |target| > 0 && |front| > 0 && HasSlot(t, SlotOf(t, target))
    ensures SlotOf(t, target) == Child(At(t, front), last) <==> front + [last] == target
  {
    hide At;
    var top := target[..|target| - 1];
    if front + [last] == target { assert top == front; }
    if SlotOf(t, target) == Child(At(t, front), last) {
      assert At(t, top) == At(t, front) != 0;
      assert target == top + [last];
    }
  }

  /** Linking changes what is found on exactly one path. */
  lemma {:induction false} LinkAt<K>(t: Trie<K>, target: seq<nat>, q: nat, path: seq<nat>)
    requires Sized(t) && Injective(t) && Linkable(t, target, q)
    ensures At(Write(t, SlotOf(t, target), q), path) == if path == target then q else At(t, path)
    decreases |path|
  {
    hide Reachable;
    if |path| > 1 {
      var front := path[..|path| - 1];
      LinkAt(t, target, q, front);
      LinkBelow(t, target, q, front, path[|path| - 1]);
      assert path == front + [path[|path| - 1]];
    } else if |path| == 1 {
      assert path == [path[0]];
      if |target| == 1 { assert target == [target[0]]; }
    }
  }

  lemma LinkedNodeIsChildless<K>(t: Trie<K>, target: seq<nat>, q: nat)
    requires Sized(t) && Linkable(t, target, q)
    ensures Write(t, SlotOf(t, target), q).heap[q].child == [0, 0, 0, 0]
  {
    var slot := SlotOf(t, target);
    if slot.Child? {
      assert Reachable(t, slot.p);
    }
  }

  lemma ChildUntouched<K>(t: Trie<K>, target: seq<nat>, q: nat, p: nat, c: nat)
    requires Sized(t) && Linkable(t, target, q) && SlotOf(t, target) != Child(p, c)
    ensures var t' := Write(t, SlotOf(t, target), q);
      && t'.heap.Keys == t.heap.Keys
      && (p in t.heap ==> |t'.heap[p].child| == |t.heap[p].child|)
      && (p in t.heap && c < |t.heap[p].child| ==> t'.heap[p].child[c] == t.heap[p].child[c])
  {
  }

  // -----------------------------------------------------------------------------
  // The same write at the end of a key's walk.

  /** A new, childless, unreachable node for `k`, about to go into the empty slot at the end of k's walk. */
  ghost predicate Publishable<K(!new)>(H: Hasher<K>, t: Trie<K>, k: K, n: nat, q: nat) {
    && OnWay(H, t, k, n)
    && q in t.heap && t.heap[q].key == k
    && Linkable(t, Path(H, k, n), q)
  }

  ghost function Publish<K>(H: Hasher<K>, t: Trie<K>, k: K, n: nat, q: nat): Trie<K>
    requires n >= 1 && HasSlot(t, SlotOf(t, Path(H, k, n)))
  {
    Write(t, SlotOf(t, Path(H, k, n)), q)
  }

  /** `t'` is `t` with node `q` added at `target` and nothing else changed but the one link. */
  ghost predicate Linked<K>(t: Trie<K>, t': Trie<K>, target: seq<nat>, q: nat) {
    && t'.heap.Keys == t.heap.Keys
    && (forall p :: p in t.heap ==>
          t'.heap[p].key == t.heap[p].key && t'.heap[p].hash == t.heap[p].hash && t'.heap[p].value == t.heap[p].value)
    && (forall path :: At(t', path) == if path == target then q else At(t, path))
  }

  lemma LinkedBy<K>(t: Trie<K>, target: seq<nat>, q: nat)
    requires Sized(t) && Injective(t) && Linkable(t, target, q)
    ensures Sized(Write(t, SlotOf(t, target), q))
    ensures Linked(t, Write(t, SlotOf(t, target), q), target, q)
  {
    var t' := Write(t, SlotOf(t, target), q);
    forall path ensures At(t', path) == if path == target then q else At(t, path) {
      LinkAt(t, target, q, path);
    }
  }

  lemma LinkedWellFormed<K(!new)>(H: Hasher<K>, t: Trie<K>, t': Trie<K>, k: K, n: nat, q: nat)
    requires WellFormed(H, t) && Publishable(H, t, k, n, q)
    requires Sized(t') && Linked(t, t', Path(H, k, n), q)
    ensures WellFormed(H, t')
  {
    hide At, RegAt, Path, OnWay;
    var target := Path(H, k, n);
    forall path | At(t', path) != 0 && path != target ensures KeyOf(t, At(t, path)) != k {
      assert !Holds(t, k, At(t, path)) by {
        MissMeansAbsent(H, t, k, n, At(t, path));
      }
    }
    forall a, b | At(t', a) != 0 && At(t', b) != 0 && KeyOf(t', At(t', a)) == KeyOf(t', At(t', b))
      ensures a == b
    {
      if a != target && b != target {
        assert KeyOf(t, At(t, a)) == KeyOf(t, At(t, b));
      }
    }
  }

  lemma LinkedRepresents<K(!new)>(t: Trie<K>, t': Trie<K>, target: seq<nat>, q: nat, m: map<K, u64>)
    requires q in t.heap && q != 0 && Represents(t, m) && Linked(t, t', target, q)
    requires At(t, target) == 0
    requires forall p :: !Holds(t, t.heap[q].key, p)
    ensures t.heap[q].key !in m && Represents(t', m[t.heap[q].key := t.heap[q].value])
  {
    hide At;
    var k := t.heap[q].key;
    var m' := m[k := t.heap[q].value];
    assert At(t', target) == q;
    forall p | Reachable(t', p) && p in t'.heap ensures KeyOf(t', p) in m' && m'[KeyOf(t', p)] == t'.heap[p].value {
      var path :| At(t', path) == p;
      if path != target {
        assert Reachable(t, p);
        assert !Holds(t, k, p);
      }
    }
    forall j | j in m' ensures exists p :: Holds(t', j, p) {
      if j == k {
        assert Holds(t', k, q);
      } else {
        var p :| Holds(t, j, p);
        var path :| At(t, path) == p;
        assert At(t', path) == p;
        assert Holds(t', j, p);
      }
    }
  }

  /** Main structural result: publishing keeps the trie well formed and adds exactly one entry. */
  lemma PublishCorrect<K(!new)>(H: Hasher<K>, t: Trie<K>, k: K, n: nat, q: nat, m: map<K, u64>)
    requires WellFormed(H, t) && Publishable(H, t, k, n, q) && Represents(t, m)
    ensures WellFormed(H, Publish(H, t, k, n, q))
    ensures k !in m && Represents(Publish(H, t, k, n, q), m[k := t.heap[q].value])
    ensures Linked(t, Publish(H, t, k, n, q), Path(H, k, n), q)
  {
    var target := Path(H, k, n);
    assert Injective(t) by {
      forall a, b | At(t, a) == At(t, b) != 0 ensures a == b { OnePath(H, t, a, b); }
    }
    LinkedBy(t, target, q);
    LinkedWellFormed(H, t, Publish(H, t, k, n, q), k, n, q);
    forall p ensures !Holds(t, k, p) { MissMeansAbsent(H, t, k, n, p); }
    LinkedRepresents(t, Publish(H, t, k, n, q), target, q, m);
  }

  // -----------------------------------------------------------------------------
  // Changes that touch no link: allocating a node, storing a value.

  /** Same links; nodes may have been added and values may differ. */
  ghost predicate SameLinks<K>(t: Trie<K>, t': Trie<K>) {
    && t'.top == t.top
    && t.heap.Keys <= t'.heap.Keys
    && 0 !in t'.heap
    && (forall p :: p in t.heap ==>
          t'.heap[p].child == t.heap[p].child && t'.heap[p].key == t.heap[p].key && t'.heap[p].hash == t.heap[p].hash)
    && (forall p :: p in t'.heap ==> |t'.heap[p].child| == 4)
  }

  lemma {:induction false} SameLinksSameAt<K>(t: Trie<K>, t': Trie<K>, path: seq<nat>)
    requires SameLinks(t, t') && Sized(t)
    requires forall p :: At(t, p) != 0 ==> At(t, p) in t.heap
    ensures At(t', path) == At(t, path)
    decreases |path|
  {
    if |path| > 1 {
      SameLinksSameAt(t, t', path[..|path| - 1]);
    }
  }

  lemma SameLinksWellFormed<K(!new)>(H: Hasher<K>, t: Trie<K>, t': Trie<K>)
    requires WellFormed(H, t) && SameLinks(t, t')
    requires forall p :: p in t'.heap ==> t'.heap[p].hash == H.digest(t'.heap[p].key)
    ensures WellFormed(H, t')
    ensures forall path :: At(t', path) == At(t, path)
  {
    hide At, Path;
    forall path ensures At(t', path) == At(t, path) {
      SameLinksSameAt(t, t', path);
    }
  }

  lemma AllocLinks<K(!new)>(H: Hasher<K>, t: Trie<K>, t': Trie<K>, q: nat, k: K)
    requires WellFormed(H, t) && q !in t.heap && q != 0 && q in t'.heap
    requires t' == t.(heap := t.heap[q := t'.heap[q]])
    requires t'.heap[q].child == [0, 0, 0, 0] && t'.heap[q].hash == H.digest(k) && t'.heap[q].key == k
    ensures WellFormed(H, t') && forall path :: At(t', path) == At(t, path)
  {
    hide At, Path;
    SameLinksWellFormed(H, t, t');
  }

  /** Allocating nodes that nothing points to leaves the map as it was. */
  lemma AllocateRepresents<K(!new)>(t: Trie<K>, t': Trie<K>, m: map<K, u64>)
    requires Represents(t, m) && t.heap.Keys <= t'.heap.Keys
    requires forall p :: p in t.heap ==> t'.heap[p] == t.heap[p]
    requires forall path :: At(t', path) == At(t, path)
    requires forall path :: At(t, path) != 0 ==> At(t, path) in t.heap
    ensures Represents(t', m)
  {
    hide At;
    forall p | Reachable(t', p) && p in t'.heap ensures KeyOf(t', p) in m && m[KeyOf(t', p)] == t'.heap[p].value {
      var path :| At(t', path) == p;
      assert Reachable(t, p);
    }
    forall j | j in m ensures exists p :: Holds(t', j, p) {
      var p :| Holds(t, j, p);
      var path :| At(t, path) == p;
      assert At(t', path) == p;
      assert Holds(t', j, p);
    }
  }

  function StoreValue<K>(t: Trie<K>, p: nat, v: u64): Trie<K>
    requires p in t.heap
  {
    t.(heap := t.heap[p := t.heap[p].(value := v)])
  }

  lemma StoreLinks<K(!new)>(H: Hasher<K>, t: Trie<K>, p: nat, v: u64)
    requires WellFormed(H, t) && p in t.heap
    ensures WellFormed(H, StoreValue(t, p, v)) && forall path :: At(StoreValue(t, p, v), path) == At(t, path)
  {
    hide At, Path;
    SameLinksWellFormed(H, t, StoreValue(t, p, v));
  }

  /** Storing through a reachable node overwrites exactly that node's key. */
  lemma StoreCorrect<K(!new)>(H: Hasher<K>, t: Trie<K>, p: nat, v: u64, m: map<K, u64>)
    requires WellFormed(H, t) && Represents(t, m) && Reachable(t, p)
    ensures p in t.heap && WellFormed(H, StoreValue(t, p, v))
    ensures forall path :: At(StoreValue(t, p, v), path) == At(t, path)
    ensures KeyOf(t, p) in m && Represents(StoreValue(t, p, v), m[KeyOf(t, p) := v])
  {
    hide At, Path, Represents;
    assert p in t.heap by { SameKeySameNode(H, t, p, p); }
    var t' := StoreValue(t, p, v);
    StoreLinks(H, t, p, v);
    forall q | Reachable(t, q) ensures q in t.heap && (KeyOf(t, q) == KeyOf(t, p) ==> q == p) {
      SameKeySameNode(H, t, p, q);
    }
    StoreRepresents(t, t', p, v, m);
  }

  lemma StoreRepresents<K(!new)>(t: Trie<K>, t': Trie<K>, p: nat, v: u64, m: map<K, u64>)
    requires Represents(t, m) && Reachable(t, p) && p in t.heap && t' == StoreValue(t, p, v)
    requires forall q :: Reachable(t, q) && q in t.heap && KeyOf(t, q) == KeyOf(t, p) ==> q == p
    requires forall path :: At(t', path) == At(t, path)
    ensures KeyOf(t, p) in m && Represents(t', m[KeyOf(t, p) := v])
  {
    hide At;
    var k := KeyOf(t, p);
    var m' := m[k := v];
    forall q | Reachable(t', q) && q in t'.heap ensures KeyOf(t', q) in m' && m'[KeyOf(t', q)] == t'.heap[q].value {
      var b :| At(t', b) == q;
      assert Reachable(t, q);
    }
    forall j | j in m' ensures exists q :: Holds(t', j, q) {
      if j == k { assert Holds(t, k, p); }
      var q :| Holds(t, j, q);
      var b :| At(t, b) == q;
      assert At(t', b) == q;
      assert Holds(t', j, q);
    }
  }

  /** No two reachable nodes hold the same key. */
  lemma SameKeySameNode<K(!new)>(H: Hasher<K>, t: Trie<K>, p: nat, q: nat)
    requires WellFormed(H, t) && Reachable(t, p) && Reachable(t, q)
    ensures p in t.heap && q in t.heap
    ensures KeyOf(t, p) == KeyOf(t, q) ==> p == q
  {
    var a :| At(t, a) == p;
    var b :| At(t, b) == q;
  }

  /** The empty trie. */
  lemma EmptyIsWellFormed<K(!new)>(H: Hasher<K>, t: Trie<K>)
    requires t == Trie(seq(TOP_SIZE, _ => 0), map[])
    ensures WellFormed(H, t) && Represents(t, map[])
  {
    forall path ensures At(t, path) == 0 {
    }
  }
}
