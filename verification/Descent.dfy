/**
 The descent rule shared by HashMap, HashTrie and HashIndex.

 A key's digest picks one of 4096 top slots with its upper 12 bits; every level below consumes two
 more bits of a shifting register. When the register has been shifted to zero it is reloaded from a
 fresh hash of the key and a round counter. The zero test comes after the shift, so a digest whose
 low 52 bits are all zero still descends through one child 0 before the first reload, and a reload
 that is itself zero is used as it is.

 The hash is a parameter: every theorem about the tries holds for any digest and reseed function.
 */
module Descent {
  import opened Machine

  const TOP_SIZE: nat := 4096

  /** The two hash functions a trie needs from its key type. */
  datatype Hasher<!K> = Hasher(digest: K -> u64, reseed: (K, u32) -> u64)

  /** Descent register: the shifting digest and the number of reseeds so far. */
  datatype Reg = Reg(h: u64, round: u32)

  function TopIndex<K>(H: Hasher<K>, k: K): nat {
    H.digest(k) / 0x10_0000_0000_0000
  }

  function Start<K>(H: Hasher<K>, k: K): Reg {
    Reg(H.digest(k) * 4096 % TWO_64, 0)
  }

  /** `h >> 62`. */
  function Digit(r: Reg): nat {
    r.h / 0x4000_0000_0000_0000
  }

  /** `h <<= 2; if (h == 0) h = reseed(key, ++round);` */
  function Advance<K>(H: Hasher<K>, k: K, r: Reg): Reg {
    var h := r.h * 4 % TWO_64;
    if h == 0 then
      var round := (r.round + 1) % TWO_32;
      Reg(H.reseed(k, round), round)
    else
      Reg(h, r.round)
  }

  /** The register after `d` levels. */
  function RegAt<K>(H: Hasher<K>, k: K, d: nat): Reg {
    if d == 0 then Start(H, k) else Advance(H, k, RegAt(H, k, d - 1))
  }

  /** The first `n` slot choices of a key: its top index, then one child number per level. */
  function Path<K>(H: Hasher<K>, k: K, n: nat): (path: seq<nat>)
    ensures |path| == n
  {
    if n == 0 then []
    else if n == 1 then [TopIndex(H, k)]
    else Path(H, k, n - 1) + [Digit(RegAt(H, k, n - 2))]
  }

  lemma {:induction false} PathPrefix<K>(H: Hasher<K>, k: K, m: nat, n: nat)
    requires m <= n
    ensures Path(H, k, n)[..m] == Path(H, k, m)
    decreases n
  {
    if m < n {
      PathPrefix(H, k, m, n - 1);
      if n > 1 {
        assert Path(H, k, n)[..n - 1] == Path(H, k, n - 1);
        assert Path(H, k, n)[..m] == Path(H, k, n)[..n - 1][..m];
      }
    }
  }

  /** Slot numbers are always in range: 4096 top slots, four children. */
  lemma {:induction false} PathInRange<K>(H: Hasher<K>, k: K, n: nat, i: nat)
    requires i < n
    ensures Path(H, k, n)[i] < if i == 0 then TOP_SIZE else 4
  {
    PathPrefix(H, k, i + 1, n);
    assert Path(H, k, n)[i] == Path(H, k, n)[..i + 1][i];
  }

  /** Two hashers that agree on a pair of keys send the keys down the same path, however deep it goes
      and however often the register is reseeded on the way. */
  lemma {:induction false} SameHashSamePath<K, L>(H: Hasher<K>, k: K, G: Hasher<L>, l: L, n: nat)
    requires H.digest(k) == G.digest(l)
    requires forall r: u32 :: H.reseed(k, r) == G.reseed(l, r)
    ensures Path(H, k, n) == Path(G, l, n)
    ensures RegAt(H, k, n) == RegAt(G, l, n)
  {
    if n > 0 {
      SameHashSamePath(H, k, G, l, n - 1);
      if n > 1 {
        SameHashSamePath(H, k, G, l, n - 2);
      }
    }
  }
}
