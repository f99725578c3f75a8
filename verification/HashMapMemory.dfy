/** The places where the HashMap writes its memory: whole nodes, the header line and the index copy. */
module HashMapMemory {
  import opened Machine
  import opened Bytes
  import opened Memory
  import opened Descent
  import opened TrieShape
  import opened HashFunc
  import opened HashMapLayout
  import opened HashMapPersist
  import opened HashMapValidate

  /** The fixed part of a node, as loads see it. */
  ghost predicate FieldsAre(mem: array<u8>, q: nat, digest: u64, len: u32)
    requires q + 40 <= mem.Length
    reads mem
  {
    && Word32(mem, q) == 0 && Word32(mem, q + 4) == 0 && Word32(mem, q + 8) == 0 && Word32(mem, q + 12) == 0
    && Word64(mem, q + 16) == digest
    && Word64(mem, q + 24) == 0
    && Word32(mem, q + 32) == len
  }

  method WriteFields(mem: array<u8>, q: nat, digest: u64, len: u32)
    requires q + 40 <= mem.Length
    modifies mem
    ensures FieldsAre(mem, q, digest, len)
    ensures forall i :: 0 <= i < mem.Length && !(q <= i < q + 40) ==> mem[i] == old(mem[i])
  {
    hide Put32, Put64, Load32;
    Store32(mem, q, 0);
    Store32(mem, q + 4, 0);
    Store32(mem, q + 8, 0);
    Store32(mem, q + 12, 0);
    Store64(mem, q + 16, digest);
    Store64(mem, q + 24, 0);
    Store32(mem, q + 32, len);
  }

  /** The field stores of `rgm_hash_map_node_create`. */
  method WriteNode(mem: array<u8>, q: nat, digest: u64, k: Key)
    requires |k| < 0x1_0000_0000 && q + 40 + |k| <= mem.Length
    modifies mem
    ensures mem[..q] == old(mem[..q]) && mem[q + 40 + |k|..] == old(mem[q + 40 + |k|..])
    ensures var m := mem[..q + 40 + |k|];
      Fits(m, q) && End(m, q) == |m| && NodeAt(m, q) == Node([0, 0, 0, 0], digest, k, 0)
  {
    hide Put32, Put64, Load32;
    WriteFields(mem, q, digest, |k|);
    CopyBytes(mem, q + 40, k);
    assert FieldsAre(mem, q, digest, |k|);
    ghost var m := mem[..q + 40 + |k|];
    assert m[q + 40..] == mem[q + 40..q + 40 + |k|] == k;
    assert m[q + 40..|m|] == m[q + 40..];
    assert Load64(m, q + 16) == digest && Load64(m, q + 24) == 0 && KeyAt(m, q) == k;
  }

  /** The copy of the top index that Save leaves in the arena. */
  method StoreIndex(mem: array<u8>, io: nat, top: array<u32>)
    requires io + 4 * top.Length <= mem.Length && (top as object) != (mem as object)
    modifies mem
    ensures forall j: nat :: j < top.Length ==> Word32(mem, io + 4 * j) == top[j]
    ensures forall k :: 0 <= k < mem.Length && !(io <= k < io + 4 * top.Length) ==> mem[k] == old(mem[k])
  {
    hide Load32, Put32;
    var i := 0;
    while i < top.Length
      invariant i <= top.Length
      invariant forall j: nat :: j < i ==> Word32(mem, io + 4 * j) == top[j]
      invariant forall k :: 0 <= k < mem.Length && !(io <= k < io + 4 * top.Length) ==> mem[k] == old(mem[k])
    {
      label Before:
      Store32(mem, io + 4 * i, top[i]);
      forall j: nat | j < i ensures Word32(mem, io + 4 * j) == top[j] {
        assert Word32(mem, io + 4 * j) == old@Before(Word32(mem, io + 4 * j));
      }
      i := i + 1;
    }
  }

  /** Open's copy in the other direction. */
  method LoadIndex(mem: array<u8>, io: nat, top: array<u32>)
    requires io + 4 * top.Length <= mem.Length && (top as object) != (mem as object)
    modifies top
    ensures forall j: nat :: j < top.Length ==> top[j] == Word32(mem, io + 4 * j)
    ensures top.Length == TOP_SIZE ==> top[..] == IndexAt(mem[..], io)
  {
    hide Load32;
    assert mem[..] == mem[..mem.Length];
    var i := 0;
    while i < top.Length
      invariant i <= top.Length
      invariant forall j: nat :: j < i ==> top[j] == Word32(mem, io + 4 * j)
    {
      top[i] := Word32(mem, io + 4 * i);
      i := i + 1;
    }
  }

  // -----------------------------------------------------------------------------
  // The header line.

  ghost predicate HeaderIs(mem: array<u8>, h: Header)
    requires mem.Length >= HEADER_SIZE
    reads mem
  {
    && Word64(mem, 0) == h.magic
    && Word32(mem, 8) == h.version
    && Word32(mem, 12) == h.topBits
    && Word64(mem, 16) == h.highWater
    && Word64(mem, 24) == h.indexOffset
  }

  lemma HeaderSeen(mem: array<u8>, h: Header, n: nat)
    requires HEADER_SIZE <= n <= mem.Length && HeaderIs(mem, h)
    ensures HeaderAt(mem[..n]) == h
  {
    hide Load32;
  }

  method WriteHeader(mem: array<u8>, highWater: u64, indexOffset: u32)
    requires mem.Length >= HEADER_SIZE
    modifies mem
    ensures HeaderIs(mem, Header(MAGIC, VERSION, TOP_BITS, highWater, indexOffset))
    ensures forall i :: HEADER_SIZE <= i < mem.Length ==> mem[i] == old(mem[i])
  {
    hide Load32, Load64, Put32, Put64;
    Store64(mem, 0, MAGIC);
    Store32(mem, 8, VERSION);
    Store32(mem, 12, TOP_BITS);
    Store64(mem, 16, highWater);
    Store64(mem, 24, indexOffset);
  }

  method ReadHeader(mem: array<u8>) returns (h: Header)
    requires mem.Length >= HEADER_SIZE
    ensures HeaderIs(mem, h)
  {
    hide Load32;
    h := Header(Word64(mem, 0), Word32(mem, 8), Word32(mem, 12), Word64(mem, 16), Word64(mem, 24));
  }

  /** The stores of `rgHashMapSave`: the index copy, then the header. */
  method WriteSaved(mem: array<u8>, highWater: u64, io: u32, top: array<u32>)
    requires top.Length == TOP_SIZE && (top as object) != (mem as object)
    requires CACHE_LINE <= io && io % 4 == 0 && io + INDEX_BYTES <= highWater <= mem.Length
    modifies mem
    ensures SavedAs(old(mem[..highWater]), mem[..highWater], top[..], io)
    ensures forall i :: HEADER_SIZE <= i < mem.Length && !(io <= i < io + INDEX_BYTES) ==> mem[i] == old(mem[i])
  {
    hide Load32, HeaderIs;
    ghost var before := mem[..];
    StoreIndex(mem, io, top);
    label Indexed:
    WriteHeader(mem, highWater, io);
    forall i: nat | i < TOP_SIZE ensures Word32(mem, io + 4 * i) == top[i] {
      assert Word32(mem, io + 4 * i) == old@Indexed(Word32(mem, io + 4 * i));
    }
    HeaderSeen(mem, Header(MAGIC, VERSION, TOP_BITS, highWater, io), highWater);
    IndexSeen(mem, io, top[..], highWater);
    OutsideSame(before, mem[..], highWater, HEADER_SIZE, io);
    OutsideSame(before, mem[..], highWater, io + INDEX_BYTES, highWater);
    assert mem[..highWater] == mem[..][..highWater] && before[..highWater] == old(mem[..highWater]);
  }

  /** A stretch that no store touched. */
  lemma OutsideSame(a: seq<u8>, b: seq<u8>, n: nat, lo: nat, hi: nat)
    requires |a| == |b| && lo <= hi <= n <= |a|
    requires forall i :: lo <= i < hi ==> a[i] == b[i]
    ensures b[..n][lo..hi] == a[..n][lo..hi]
    ensures hi == n ==> b[..n][lo..] == a[..n][lo..]
  {
  }

  lemma IndexSeen(mem: array<u8>, io: nat, top: seq<u32>, n: nat)
    requires |top| == TOP_SIZE && io + INDEX_BYTES <= n <= mem.Length
    requires forall i: nat :: i < TOP_SIZE ==> Word32(mem, io + 4 * i) == top[i]
    ensures IndexAt(mem[..n], io) == top
  {
    hide Load32;
  }

  /** Open's loop over the file's copy of the index. */
  method ValidateIndex(mem: array<u8>, highWater: nat, io: nat) returns (ok: bool)
    requires io + INDEX_BYTES <= highWater <= mem.Length
    ensures ok <==> CheckRoots(mem[..highWater], IndexAt(mem[..], io), 0, highWater / NODE_SIZE).Some?
  {
    hide Check, Load32;
    ghost var (m, index) := (mem[..highWater], IndexAt(mem[..], io));
    var budget: nat := highWater / NODE_SIZE;
    var r := 0;
    assert mem[..] == mem[..mem.Length];
    while r < TOP_SIZE
      invariant r <= TOP_SIZE
      invariant CheckRoots(m, index, 0, highWater / NODE_SIZE) == CheckRoots(m, index, r, budget)
    {
      var root := Word32(mem, io + 4 * r);
      assert root == index[r];
      if root != 0 {
        var valid, left := ValidateSubtree(mem, highWater, root, budget);
        if !valid {
          return false;
        }
        budget := left;
      }
      r := r + 1;
    }
    return true;
  }
}
