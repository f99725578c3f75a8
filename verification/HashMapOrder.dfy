/** The order in which ForEach shows a map: strict pre-order of the nodes' paths. */
module HashMapOrder {
  import opened Machine
  import opened Descent
  import opened TrieShape
  import opened HashFunc
  import opened HashMapLayout
  import opened HashMapNodes
  import opened PathOrder

  /** Whichever paths lead to the nodes of the list, they are in pre-order. */
  ghost predicate InOrder<K>(t: Trie<K>, list: seq<nat>) {
    forall i, j, a, b :: 0 <= i < j < |list| && At(t, a) == list[i] && At(t, b) == list[j] ==> Before(a, b)
  }

  ghost predicate Ahead<K>(t: Trie<K>, p: nat, q: nat) {
    forall a, b :: At(t, a) == p && At(t, b) == q ==> Before(a, b)
  }

  lemma OrderConcat<K>(t: Trie<K>, x: seq<nat>, y: seq<nat>)
    requires InOrder(t, x) && InOrder(t, y) && forall p, q :: p in x && q in y ==> Ahead(t, p, q)
    ensures InOrder(t, x + y)
  {
    hide At, Before;
    var s := x + y;
    forall i, j, a, b | 0 <= i < j < |s| && At(t, a) == s[i] && At(t, b) == s[j] ensures Before(a, b) {
      if j < |x| {
        assert x[i] == s[i] && x[j] == s[j];
      } else if i < |x| {
        assert s[i] in x && s[j] == y[j - |x|] && s[j] in y && Ahead(t, s[i], s[j]);
      } else {
        assert y[i - |x|] == s[i] && y[j - |x|] == s[j];
      }
    }
  }

  /** What lies under an earlier slot comes before what lies under a later one. */
  lemma SlotsAhead<K(!new)>(H: Hasher<K>, t: Trie<K>, path: seq<nat>, c: nat, d: nat, p: nat, q: nat)
    requires WellFormed(H, t) && c < d && p != 0 && q != 0 && Under(t, path + [c], p) && Under(t, path + [d], q)
    ensures Ahead(t, p, q)
  {
    hide At, WellFormed;
    var x :| At(t, path + [c] + x) == p;
    var y :| At(t, path + [d] + y) == q;
    forall a, b | At(t, a) == p && At(t, b) == q ensures Before(a, b) {
      OnePath(H, t, a, path + [c] + x);
      OnePath(H, t, b, path + [d] + y);
      assert a[..|path|] == path && b[..|path|] == path;
      assert PartAt(a, b, |path|);
    }
  }

  /** A node comes before what lies under it. */
  lemma NodeAhead<K(!new)>(H: Hasher<K>, t: Trie<K>, path: seq<nat>, c: nat, q: nat)
    requires WellFormed(H, t) && At(t, path) != 0 && q != 0 && Under(t, path + [c], q)
    ensures Ahead(t, At(t, path), q)
  {
    hide At, WellFormed;
    var y :| At(t, path + [c] + y) == q;
    forall a, b | At(t, a) == At(t, path) && At(t, b) == q ensures Before(a, b) {
      OnePath(H, t, a, path);
      OnePath(H, t, b, path + [c] + y);
      assert a[..|path|] == path && b[..|path|] == path;
      assert PartAt(a, b, |path|);
    }
  }

  lemma {:induction false} NodesOrdered(H: Hasher<Key>, m: Image, top: seq<u32>, offs: set<nat>, path: seq<nat>, off: nat)
    requires Honest(H, m, top, offs) && Safe(m, off)
    requires |path| >= 1 && At(View(m, top, offs), path) == off != 0
    ensures InOrder(View(m, top, offs), Nodes(m, off))
    decreases |m| - off, 5
  {
    hide WellFormed, At, Honest, View, Under, InOrder, Ahead;
    HonestWellFormed(H, m, top, offs);
    var t := View(m, top, offs);
    var rest := NodesFrom(m, off, 0);
    NodesFromOrdered(H, m, top, offs, path, off, 0);
    NodesFromHonest(H, m, top, offs, path, off, 0);
    forall q | q in rest ensures Ahead(t, off, q) {
      var d: nat :| d < 4 && Under(t, path + [d], q);
      NodeAhead(H, t, path, d, q);
    }
    OneInOrder(t, off);
    OrderConcat(t, [off], rest);
  }

  lemma OneInOrder<K>(t: Trie<K>, off: nat)
    ensures InOrder(t, [off]) && InOrder(t, [])
  {
  }

  lemma {:induction false} NodesFromOrdered(H: Hasher<Key>, m: Image, top: seq<u32>, offs: set<nat>, path: seq<nat>,
                                            off: nat, c: nat)
    requires Honest(H, m, top, offs) && Safe(m, off) && c <= 4
    requires |path| >= 1 && At(View(m, top, offs), path) == off != 0
    ensures InOrder(View(m, top, offs), NodesFrom(m, off, c))
    decreases |m| - off, 4 - c
  {
    hide WellFormed, At, Honest, View, Under, InOrder, Ahead;
    HonestWellFormed(H, m, top, offs);
    var t := View(m, top, offs);
    OneInOrder(t, off);
    if c < 4 {
      NodesFromOrdered(H, m, top, offs, path, off, c + 1);
      NodesFromHonest(H, m, top, offs, path, off, c + 1);
      LinkAtPath(H, m, top, offs, path, c);
      var q := Link(m, off, c);
      var later := NodesFrom(m, off, c + 1);
      if q == 0 {
        assert [] + later == later;
      } else {
        SafeStep(m, off);
        NodesOrdered(H, m, top, offs, path + [c], q);
        NodesHonest(H, m, top, offs, path + [c], q);
        NonZero(H, m, top, offs);
        forall x, y | x in Nodes(m, q) && y in later ensures Ahead(t, x, y) {
          var d: nat :| c + 1 <= d < 4 && Under(t, path + [d], y);
          SlotsAhead(H, t, path, c, d, x, y);
        }
        OrderConcat(t, Nodes(m, q), later);
      }
    }
  }

  lemma {:induction false} RootsOrdered(H: Hasher<Key>, m: Image, top: seq<u32>, offs: set<nat>, i: nat)
    requires Honest(H, m, top, offs) && SafeRoots(m, top) && i <= |top|
    ensures InOrder(View(m, top, offs), RootsFrom(m, top, i))
    decreases |top| - i
  {
    hide WellFormed, At, Honest, View, Under, InOrder, Ahead, Safe, Nodes;
    HonestWellFormed(H, m, top, offs);
    var t := View(m, top, offs);
    OneInOrder(t, 0);
    if i < |top| {
      RootsOrdered(H, m, top, offs, i + 1);
      RootsHonest(H, m, top, offs, i + 1);
      TopAtPath(H, m, top, offs, i);
      var later := RootsFrom(m, top, i + 1);
      if top[i] == 0 {
        assert [] + later == later;
      } else {
        assert [] + [i] == [i];
        NodesOrdered(H, m, top, offs, [i], top[i]);
        NodesHonest(H, m, top, offs, [i], top[i]);
        NonZero(H, m, top, offs);
        forall x, y | x in Nodes(m, top[i]) && y in later ensures Ahead(t, x, y) {
          var d: nat :| i + 1 <= d < |top| && Under(t, [] + [d], y);
          SlotsAhead(H, t, [], i, d, x, y);
        }
        OrderConcat(t, Nodes(m, top[i]), later);
      }
    }
  }

  /** On a valid map the list that ForEach shows is in strict pre-order. */
  lemma AllNodesInOrder(H: Hasher<Key>, m: Image, top: seq<u32>, offs: set<nat>)
    requires Honest(H, m, top, offs) && SafeRoots(m, top)
    ensures InOrder(View(m, top, offs), AllNodes(m, top))
  {
    hide InOrder, Honest, View;
    RootsOrdered(H, m, top, offs, 0);
  }
}
