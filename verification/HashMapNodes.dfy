/** The nodes of an image in pre-order, and what that list is on an honest image. */
module HashMapNodes {
  import opened Machine
  import opened Descent
  import opened TrieShape
  import opened HashFunc
  import opened HashMapLayout
  import opened HashMapPut

  /** The node at `off`, then its children's subtrees in slot order. A node reached by two links is
      listed twice. */
  function Nodes(m: Image, off: nat): (list: seq<nat>)
    requires Safe(m, off)
    decreases |m| - off, 5
  {
    [off] + NodesFrom(m, off, 0)
  }

  /** The subtrees of children `c` to 3. */
  function NodesFrom(m: Image, off: nat, c: nat): seq<nat>
    requires Safe(m, off) && c <= 4
    decreases |m| - off, 4 - c
  {
    if c == 4 then []
    else
      var q := Link(m, off, c);
      (if q == 0 then [] else Nodes(m, q)) + NodesFrom(m, off, c + 1)
  }

  predicate SafeTail(m: Image, top: seq<u32>, i: nat) {
    forall j: nat | i <= j < |top| :: top[j] == 0 || Safe(m, top[j])
  }

  /** The subtrees of top slots `i` and up. */
  function RootsFrom(m: Image, top: seq<u32>, i: nat): seq<nat>
    requires SafeTail(m, top, i) && i <= |top|
    decreases |top| - i
  {
    if i == |top| then []
    else (if top[i] == 0 then [] else Nodes(m, top[i])) + RootsFrom(m, top, i + 1)
  }

  function AllNodes(m: Image, top: seq<u32>): seq<nat>
    requires SafeRoots(m, top)
  {
    RootsFrom(m, top, 0)
  }

  /** Levels below and including `off`. */
  function Depth(m: Image, off: nat): (d: nat)
    requires Safe(m, off)
    decreases |m| - off, 5
  {
    1 + DepthFrom(m, off, 0)
  }

  function DepthFrom(m: Image, off: nat, c: nat): (d: nat)
    requires Safe(m, off) && c <= 4
    decreases |m| - off, 4 - c
  {
    if c == 4 then 0
    else
      var q := Link(m, off, c);
      var (a, b) := (if q == 0 then 0 else Depth(m, q), DepthFrom(m, off, c + 1));
      if a > b then a else b
  }

  predicate DepthAtMost(m: Image, top: seq<u32>, limit: nat)
    requires SafeRoots(m, top)
  {
    forall i: nat | i < |top| && top[i] != 0 :: Depth(m, top[i]) <= limit
  }

  // -----------------------------------------------------------------------------
  // On an honest image.

  ghost predicate Under<K>(t: Trie<K>, path: seq<nat>, q: nat) {
    exists ext :: At(t, path + ext) == q
  }

  ghost predicate NoDup(s: seq<nat>) {
    forall i, j :: 0 <= i < j < |s| ==> s[i] != s[j]
  }

  lemma NoDupConcat(a: seq<nat>, b: seq<nat>)
    requires NoDup(a) && NoDup(b) && forall x :: x in a ==> x !in b
    ensures NoDup(a + b)
  {
    forall i, j | 0 <= i < j < |a + b| ensures (a + b)[i] != (a + b)[j] {
      if i < |a| <= j { assert a[i] in a && b[j - |a|] in b; }
    }
  }

  /** Subtrees of different slots have no node in common. */
  lemma UnderDisjoint<K(!new)>(H: Hasher<K>, t: Trie<K>, path: seq<nat>, c: nat, d: nat, q: nat)
    requires WellFormed(H, t) && q != 0 && Under(t, path + [c], q) && Under(t, path + [d], q)
    ensures c == d
  {
    hide At, WellFormed;
    var a :| At(t, path + [c] + a) == q;
    var b :| At(t, path + [d] + b) == q;
    OnePath(H, t, path + [c] + a, path + [d] + b);
    assert (path + [c] + a)[|path|] == c && (path + [d] + b)[|path|] == d;
  }

  lemma UnderSelf<K(!new)>(H: Hasher<K>, t: Trie<K>, path: seq<nat>, c: nat)
    requires WellFormed(H, t) && At(t, path) != 0
    ensures !Under(t, path + [c], At(t, path))
  {
    hide At, WellFormed;
    if Under(t, path + [c], At(t, path)) {
      var a :| At(t, path + [c] + a) == At(t, path);
      OnePath(H, t, path + [c] + a, path);
    }
  }

  lemma UnderWider<K>(t: Trie<K>, path: seq<nat>, c: nat, q: nat)
    requires Under(t, path + [c], q)
    ensures Under(t, path, q)
  {
    hide At;
    var a :| At(t, path + [c] + a) == q;
    assert path + [c] + a == path + ([c] + a);
  }

  /** A slot of an honest image, seen as a path of its trie. */
  lemma LinkAtPath(H: Hasher<Key>, m: Image, top: seq<u32>, offs: set<nat>, path: seq<nat>, c: nat)
    requires Honest(H, m, top, offs) && |path| >= 1 && At(View(m, top, offs), path) != 0 && c < 4
    ensures At(View(m, top, offs), path) in offs
    ensures At(View(m, top, offs), path + [c]) == Link(m, At(View(m, top, offs), path), c)
  {
    hide WellFormed, At;
    var t := View(m, top, offs);
    ReachableIsNode(H, t, path);
    var o := At(t, path);
    FourChildren(m, o);
    assert t.heap[o] == NodeAt(m, o);
    AtExtend(t, path, c);
  }

  /** Pre-order lists each node under `path` exactly once. */
  lemma {:induction false} NodesHonest(H: Hasher<Key>, m: Image, top: seq<u32>, offs: set<nat>, path: seq<nat>,
                                       off: nat)
    requires Honest(H, m, top, offs) && Safe(m, off)
    requires |path| >= 1 && At(View(m, top, offs), path) == off != 0
    ensures NoDup(Nodes(m, off))
    ensures forall q :: q in Nodes(m, off) ==> q in offs && Under(View(m, top, offs), path, q)
    decreases |m| - off, 5
  {
    hide WellFormed, At, Honest, View, Under;
    HonestWellFormed(H, m, top, offs);
    var t := View(m, top, offs);
    NodesFromHonest(H, m, top, offs, path, off, 0);
    var rest := NodesFrom(m, off, 0);
    assert Under(t, path, off) by { UnderRefl(t, path); }
    LinkAtPath(H, m, top, offs, path, 0);
    forall q | q in rest ensures q != off && q in offs && Under(t, path, q) {
      var c: nat :| c < 4 && Under(t, path + [c], q);
      UnderSelf(H, t, path, c);
      UnderWider(t, path, c, q);
    }
    NoDupConcat([off], rest);
  }

  lemma HonestWellFormed(H: Hasher<Key>, m: Image, top: seq<u32>, offs: set<nat>)
    requires Honest(H, m, top, offs)
    ensures AllFit(m, offs) && WellFormed(H, View(m, top, offs))
  {
  }

  lemma UnderRefl<K>(t: Trie<K>, path: seq<nat>)
    ensures Under(t, path, At(t, path))
  {
    hide At;
    assert path + [] == path;
  }

  lemma {:induction false} NodesFromHonest(H: Hasher<Key>, m: Image, top: seq<u32>, offs: set<nat>, path: seq<nat>,
                                           off: nat, c: nat)
    requires Honest(H, m, top, offs) && Safe(m, off) && c <= 4
    requires |path| >= 1 && At(View(m, top, offs), path) == off != 0
    ensures NoDup(NodesFrom(m, off, c))
    ensures forall q :: q in NodesFrom(m, off, c) ==>
      q != 0 && q in offs && exists d: nat :: c <= d < 4 && Under(View(m, top, offs), path + [d], q)
    decreases |m| - off, 4 - c
  {
    hide WellFormed, At, Honest, View, Under;
    HonestWellFormed(H, m, top, offs);
    var t := View(m, top, offs);
    if c < 4 {
      NodesFromHonest(H, m, top, offs, path, off, c + 1);
      LinkAtPath(H, m, top, offs, path, c);
      var q := Link(m, off, c);
      if q != 0 {
        SafeStep(m, off);
        NodesHonest(H, m, top, offs, path + [c], q);
        NonZero(H, m, top, offs);
        var (a, b) := (Nodes(m, q), NodesFrom(m, off, c + 1));
        forall x | x in a ensures x !in b {
          if x in b {
            var d: nat :| c + 1 <= d < 4 && Under(t, path + [d], x);
            UnderDisjoint(H, t, path, c, d, x);
          }
        }
        NoDupConcat(a, b);
      }
    }
  }

  lemma NonZero(H: Hasher<Key>, m: Image, top: seq<u32>, offs: set<nat>)
    requires Honest(H, m, top, offs)
    ensures 0 !in offs
  {
  }

  lemma TopAtPath(H: Hasher<Key>, m: Image, top: seq<u32>, offs: set<nat>, i: nat)
    requires Honest(H, m, top, offs) && i < |top|
    ensures At(View(m, top, offs), [i]) == top[i]
  {
  }

  lemma {:induction false} RootsHonest(H: Hasher<Key>, m: Image, top: seq<u32>, offs: set<nat>, i: nat)
    requires Honest(H, m, top, offs) && SafeRoots(m, top) && i <= |top|
    ensures NoDup(RootsFrom(m, top, i))
    ensures forall q :: q in RootsFrom(m, top, i) ==>
      q != 0 && q in offs && exists d: nat :: i <= d < |top| && Under(View(m, top, offs), [] + [d], q)
    decreases |top| - i
  {
    hide WellFormed, At, Honest, View, Under;
    HonestWellFormed(H, m, top, offs);
    var t := View(m, top, offs);
    if i < |top| {
      RootsHonest(H, m, top, offs, i + 1);
      TopAtPath(H, m, top, offs, i);
      if top[i] != 0 {
        assert [] + [i] == [i];
        NodesHonest(H, m, top, offs, [i], top[i]);
        NonZero(H, m, top, offs);
        var (a, b) := (Nodes(m, top[i]), RootsFrom(m, top, i + 1));
        forall x | x in a ensures x !in b {
          if x in b {
            var d: nat :| i + 1 <= d < |top| && Under(t, [] + [d], x);
            UnderDisjoint(H, t, [], i, d, x);
          }
        }
        NoDupConcat(a, b);
      }
    }
  }

  /** Everything below a node is listed after it. */
  lemma {:induction false} NodesComplete(H: Hasher<Key>, m: Image, top: seq<u32>, offs: set<nat>, path: seq<nat>,
                                         ext: seq<nat>)
    requires Honest(H, m, top, offs) && |path| >= 1
    requires At(View(m, top, offs), path) != 0 && Safe(m, At(View(m, top, offs), path))
    requires At(View(m, top, offs), path + ext) != 0
    ensures At(View(m, top, offs), path + ext) in Nodes(m, At(View(m, top, offs), path))
    decreases |ext|
  {
    hide WellFormed, At, Honest, View;
    HonestWellFormed(H, m, top, offs);
    var t := View(m, top, offs);
    var off := At(t, path);
    if ext == [] {
      assert path + ext == path;
    } else {
      var next := path + [ext[0]];
      assert next + ext[1..] == path + ext;
      HonestPrefix(H, m, top, offs, path + ext, |next|);
      assert (path + ext)[..|next|] == next;
      ChildNumberHonest(H, m, top, offs, next);
      LinkAtPath(H, m, top, offs, path, ext[0]);
      SafeStep(m, off);
      NodesComplete(H, m, top, offs, next, ext[1..]);
      InNodesFrom(m, off, 0, ext[0], At(t, path + ext));
    }
  }

  lemma HonestPrefix(H: Hasher<Key>, m: Image, top: seq<u32>, offs: set<nat>, path: seq<nat>, n: nat)
    requires Honest(H, m, top, offs) && 1 <= n <= |path| && At(View(m, top, offs), path) != 0
    ensures At(View(m, top, offs), path[..n]) != 0
  {
    hide At, WellFormed;
    NonZero(H, m, top, offs);
    PrefixClosed(View(m, top, offs), path, n);
  }

  lemma ChildNumberHonest(H: Hasher<Key>, m: Image, top: seq<u32>, offs: set<nat>, path: seq<nat>)
    requires Honest(H, m, top, offs) && At(View(m, top, offs), path) != 0 && |path| >= 1
    ensures path[|path| - 1] < if |path| == 1 then TOP_SIZE else 4
  {
    hide At, Path, Separate, LinksUp, View, AllFit, KeyOf;
    HonestWellFormed(H, m, top, offs);
    hide Honest;
    var t := View(m, top, offs);
    assert path == Path(H, KeyOf(t, At(t, path)), |path|);
    PathInRange(H, KeyOf(t, At(t, path)), |path|, |path| - 1);
  }

  lemma {:induction false} InNodesFrom(m: Image, off: nat, c: nat, d: nat, x: nat)
    requires Safe(m, off) && c <= d < 4 && Link(m, off, d) != 0 && Safe(m, Link(m, off, d)) && x in Nodes(m, Link(m, off, d))
    ensures x in NodesFrom(m, off, c)
    decreases d - c
  {
    if c < d { InNodesFrom(m, off, c + 1, d, x); }
  }

  lemma {:induction false} InRootsFrom(m: Image, top: seq<u32>, i: nat, d: nat, x: nat)
    requires SafeRoots(m, top) && i <= d < |top| && top[d] != 0 && x in Nodes(m, top[d])
    ensures x in RootsFrom(m, top, i)
    decreases d - i
  {
    hide Safe, Nodes;
    if i < d { InRootsFrom(m, top, i + 1, d, x); }
  }

  lemma EveryNodeListed(H: Hasher<Key>, m: Image, top: seq<u32>, offs: set<nat>, q: nat)
    requires Honest(H, m, top, offs) && SafeRoots(m, top) && q != 0 && Reachable(View(m, top, offs), q)
    ensures q in AllNodes(m, top)
  {
    hide WellFormed, At, View, Separate, LinksUp, Honest, Safe, Nodes, NodesFrom, RootsFrom;
    HonestWellFormed(H, m, top, offs);
    var t := View(m, top, offs);
    var path :| At(t, path) == q;
    assert |path| >= 1 by { EmptyPath(t); }
    HonestPrefix(H, m, top, offs, path, 1);
    assert path[..1] == [path[0]] && path == [path[0]] + path[1..];
    ChildNumberHonest(H, m, top, offs, [path[0]]);
    HonestTop(H, m, top, offs);
    TopAtPath(H, m, top, offs, path[0]);
    NodesComplete(H, m, top, offs, [path[0]], path[1..]);
    InRootsFrom(m, top, 0, path[0], q);
  }

  /** On an honest image with every node linked, the list is an enumeration of the nodes. */
  lemma AllNodesEnumerate(H: Hasher<Key>, m: Image, top: seq<u32>, offs: set<nat>)
    requires Honest(H, m, top, offs) && AllLinked(m, top, offs)
    ensures SafeRoots(m, top)
    ensures NoDup(AllNodes(m, top))
    ensures forall q :: q in AllNodes(m, top) <==> q in offs
    ensures |AllNodes(m, top)| == |offs|
  {
    hide WellFormed, At, View, Separate, LinksUp, Under, Nodes, NodesFrom, RootsFrom, NoDup;
    HonestRootsSafe(H, m, top, offs);
    RootsHonest(H, m, top, offs, 0);
    NonZero(H, m, top, offs);
    forall q | q in offs ensures q in AllNodes(m, top) {
      EveryNodeListed(H, m, top, offs, q);
    }
    NoDupSize(AllNodes(m, top), offs);
  }

  lemma EmptyPath<K>(t: Trie<K>)
    ensures At(t, []) == 0
  {
  }

  lemma {:induction false} NoDupSize(s: seq<nat>, S: set<nat>)
    requires NoDup(s) && forall x :: x in s <==> x in S
    ensures |s| == |S|
    decreases |s|
  {
    if s == [] {
      assert S == {};
    } else {
      var (x, r) := (s[0], s[1..]);
      assert forall i :: 0 <= i < |r| ==> r[i] == s[i + 1];
      forall y ensures y in r <==> y in S - {x} {
        if y in S - {x} { assert y in s; }
      }
      NoDupSize(r, S - {x});
    }
  }

  lemma {:induction false} DisjointCount(offs: set<nat>, limit: nat)
    requires forall o: nat :: o in offs ==> o + NODE_SIZE <= limit
    requires forall o: nat, p: nat :: o in offs && p in offs && o < p ==> o + NODE_SIZE <= p
    ensures NODE_SIZE * |offs| <= limit
    decreases |offs|
  {
    if offs != {} {
      var top := Largest(offs);
      DisjointCount(offs - {top}, top);
    }
  }

  lemma {:induction false} Largest(S: set<nat>) returns (top: nat)
    requires S != {}
    ensures top in S && forall x: nat :: x in S ==> x <= top
    decreases |S|
  {
    var first :| first in S;
    top := first;
    if S != {first} {
      var other := Largest(S - {first});
      if other > top { top := other; }
      assert forall x: nat :: x in S ==> x == first || x in S - {first};
    }
  }

  /** No more nodes than fit in the image. */
  lemma NodesFit(H: Hasher<Key>, m: Image, top: seq<u32>, offs: set<nat>)
    requires Honest(H, m, top, offs)
    ensures |offs| <= |m| / NODE_SIZE
  {
    hide WellFormed;
    DisjointCount(offs, |m|);
  }
}
