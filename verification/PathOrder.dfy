/**
 Pre-order on paths: a path comes before every extension of itself, and otherwise the first different
 slot number decides. `Next...` lemmas say how the set of paths before a cursor grows as a
 depth-first walk moves the cursor.
 */
module PathOrder {

  /** `a` and `b` part at position `i`, with `a` first. */
  ghost predicate PartAt(a: seq<nat>, b: seq<nat>, i: nat) {
    i <= |a| && i < |b| && a[..i] == b[..i] && (i == |a| || a[i] < b[i])
  }

  ghost predicate Before(a: seq<nat>, b: seq<nat>) {
    exists i: nat :: PartAt(a, b, i)
  }

  lemma Irreflexive(a: seq<nat>)
    ensures !Before(a, a)
  {
  }

  /** The cursor enters the node at `p`: only `p` itself falls behind. */
  lemma NextFirstChild(p: seq<nat>, a: seq<nat>)
    ensures Before(a, p + [0]) <==> Before(a, p) || a == p
  {
    var q := p + [0];
    if Before(a, q) {
      var i: nat :| PartAt(a, q, i);
      if i < |p| {
        assert q[..i] == p[..i];
        assert PartAt(a, p, i);
      } else {
        assert q[..i] == p;
        assert a == a[..i];
      }
    }
    if Before(a, p) {
      var i: nat :| PartAt(a, p, i);
      assert q[..i] == p[..i];
      assert PartAt(a, q, i);
    }
    if a == p {
      assert q[..|p|] == p && a[..|p|] == a;
      assert PartAt(a, q, |p|);
    }
  }

  /** The cursor moves past slot `c` of the node at `p`: what falls behind starts with that slot. */
  lemma NextSibling(p: seq<nat>, c: nat, a: seq<nat>)
    ensures Before(a, p + [c + 1]) <==> Before(a, p + [c]) || p + [c] <= a
  {
    var q, r := p + [c], p + [c + 1];
    if Before(a, r) {
      var i: nat :| PartAt(a, r, i);
      assert q[..i] == r[..i];
      if i == |a| || a[i] < q[i] {
        assert PartAt(a, q, i);
      } else {
        assert a[..i + 1] == q;
      }
    }
    if Before(a, q) {
      var i: nat :| PartAt(a, q, i);
      assert q[..i] == r[..i];
      assert PartAt(a, r, i);
    }
    if q <= a {
      assert a[..|p|] == q[..|p|] == p == r[..|p|];
      assert PartAt(a, r, |p|);
    }
  }

  /** The cursor leaves the node at `p + [d]` for its next sibling: among paths whose child numbers are
      below 4, nothing falls behind. */
  lemma NextUp(p: seq<nat>, d: nat, a: seq<nat>)
    requires |a| > |p| + 1 ==> a[|p| + 1] < 4
    ensures Before(a, p + [d + 1]) <==> Before(a, p + [d] + [4])
  {
    var q, r := p + [d] + [4], p + [d + 1];
    if Before(a, r) {
      NextSibling(p, d, a);
      if p + [d] <= a {
        if |a| == |p| + 1 {
          assert q[..|a|] == p + [d] == a;
          assert PartAt(a, q, |a|);
        } else {
          assert a[..|p| + 1] == p + [d] == q[..|p| + 1];
          assert PartAt(a, q, |p| + 1);
        }
      } else {
        NextFourth(p + [d], a);
      }
    }
    if Before(a, q) {
      var i: nat :| PartAt(a, q, i);
      if i <= |p| {
        assert q[..i] == (p + [d])[..i];
        assert PartAt(a, p + [d], i);
      } else {
        assert a[..i] == q[..i] == p + [d];
      }
      NextSibling(p, d, a);
    }
  }

  lemma NextFourth(p: seq<nat>, a: seq<nat>)
    requires Before(a, p)
    ensures Before(a, p + [4])
  {
    var i: nat :| PartAt(a, p, i);
    assert (p + [4])[..i] == p[..i];
    assert PartAt(a, p + [4], i);
  }
}
