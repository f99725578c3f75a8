/** Key comparison by overlapping loads. Both operands are exactly the key's bytes, so every load that
    verifies here stays inside them. */
module KeyCompare {
  import opened Machine
  import opened Bytes
  import opened Words
  import opened HashFunc

  /** Two words differ in no bit exactly when they are equal. */
  lemma {:induction false} XorIsZero(a: nat, b: nat)
    ensures XorBits(a, b) == 0 <==> a == b
  {
    if a != 0 || b != 0 {
      XorIsZero(a / 2, b / 2);
    }
  }

  /** `rgm_hash_keys_equal`. */
  method KeysEqual(a: seq<u8>, b: seq<u8>) returns (equal: bool)
    requires |a| == |b|
    ensures equal <==> a == b
  {
    hide Load32, Load64, XorBits;
    var len := |a|;
    if len >= 8 {
      var i := 0;
      while i + 8 < len
        invariant i < len && a[..i] == b[..i]
      {
        NextWord(a, b, i, i);
        if Load64(a, i) != Load64(b, i) {
          return false;
        }
        i := i + 8;
      }
      NextWord(a, b, i, len - 8);
      return Load64(a, len - 8) == Load64(b, len - 8);
    }
    if len >= 4 {
      TwoWords(a, b);
      return Xor(Load32(a, 0), Load32(b, 0)) == 0 && Xor(Load32(a, len - 4), Load32(b, len - 4)) == 0;
    }
    if len != 0 {
      Load3Injective(a, b);
      return Load3(a) == Load3(b);
    }
    return true;
  }

  /** Two overlapping words cover a key of four to seven bytes. */
  lemma TwoWords(a: seq<u8>, b: seq<u8>)
    requires 4 <= |a| == |b| <= 8
    ensures Xor(Load32(a, 0), Load32(b, 0)) == 0 && Xor(Load32(a, |a| - 4), Load32(b, |a| - 4)) == 0 <==> a == b
  {
    hide Load32, XorBits;
    var tail := |a| - 4;
    SameWord32(a, 0, b, 0);
    SameWord32(a, tail, b, tail);
    XorIsZero(Load32(a, 0), Load32(b, 0));
    XorIsZero(Load32(a, tail), Load32(b, tail));
    if a[0..4] == b[0..4] && a[tail..tail + 4] == b[tail..tail + 4] {
      assert a[..4] == a[0..4] && b[..4] == b[0..4];
      Joined(a, b, 4, tail, |a|);
    }
  }

  /** Two stretches that agree and overlap or touch make one longer stretch that agrees. */
  lemma Joined(a: seq<u8>, b: seq<u8>, i: nat, lo: nat, hi: nat)
    requires |a| == |b| && lo <= i <= |a| && lo <= hi <= |a|
    requires a[..i] == b[..i] && a[lo..hi] == b[lo..hi]
    ensures a[..hi] == b[..hi]
    ensures hi == |a| ==> a == b
  {
    forall k | 0 <= k < hi ensures a[k] == b[k] {
      if k < i {
        assert a[k] == a[..i][k] && b[k] == b[..i][k];
      } else {
        assert a[k] == a[lo..hi][k - lo] && b[k] == b[lo..hi][k - lo];
      }
    }
  }

  /** Comparing the word at `lo` when everything before `i` agrees. */
  lemma NextWord(a: seq<u8>, b: seq<u8>, i: nat, lo: nat)
    requires |a| == |b| && lo <= i <= lo + 8 <= |a| && a[..i] == b[..i]
    ensures Load64(a, lo) != Load64(b, lo) ==> a != b
    ensures Load64(a, lo) == Load64(b, lo) ==> a[..lo + 8] == b[..lo + 8] && (lo + 8 == |a| ==> a == b)
  {
    hide Load64;
    SameWord64(a, lo, b, lo);
    if a[lo..lo + 8] == b[lo..lo + 8] { Joined(a, b, i, lo, lo + 8); }
  }

  /** The first, middle and last byte are all the bytes of a key of one to three. */
  lemma Load3Injective(a: seq<u8>, b: seq<u8>)
    requires 1 <= |a| == |b| <= 3
    ensures Load3(a) == Load3(b) <==> a == b
  {
    if Load3(a) == Load3(b) {
      assert a[0] == b[0] && a[|a| / 2] == b[|a| / 2] && a[|a| - 1] == b[|a| - 1];
    }
  }
}
