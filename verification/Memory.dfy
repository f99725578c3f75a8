/** Little-endian loads and stores in an array of bytes. */
module Memory {
  import opened Machine
  import opened Bytes

  /** A 32-bit load from the array. */
  function Word32(mem: array<u8>, off: nat): (x: u32)
    requires off + 4 <= mem.Length
    reads mem
    ensures forall n: nat :: off + 4 <= n <= mem.Length ==> x == Load32(mem[..n], off)
  {
    mem[off] as int + 0x100 * mem[off + 1] as int + 0x1_0000 * mem[off + 2] as int + 0x100_0000 * mem[off + 3] as int
  }

  function Word64(mem: array<u8>, off: nat): (x: u64)
    requires off + 8 <= mem.Length
    reads mem
    ensures forall n: nat :: off + 8 <= n <= mem.Length ==> x == Load64(mem[..n], off)
  {
    Word32(mem, off) + Word32(mem, off + 4) * TWO_32
  }

  method Store32(mem: array<u8>, off: nat, x: u32)
    requires off + 4 <= mem.Length
    modifies mem
    ensures mem[..] == Put32(old(mem[..]), off, x)
    ensures Word32(mem, off) == x
    ensures forall i :: 0 <= i < mem.Length && !(off <= i < off + 4) ==> mem[i] == old(mem[i])
  {
    mem[off], mem[off + 1] := x % 0x100, x / 0x100 % 0x100;
    mem[off + 2], mem[off + 3] := x / 0x1_0000 % 0x100, x / 0x100_0000;
    assert LE32(x) == mem[off..off + 4];
  }

  method Store64(mem: array<u8>, off: nat, x: u64)
    requires off + 8 <= mem.Length
    modifies mem
    ensures mem[..] == Put64(old(mem[..]), off, x)
    ensures Word64(mem, off) == x
    ensures forall i :: 0 <= i < mem.Length && !(off <= i < off + 8) ==> mem[i] == old(mem[i])
  {
    hide Put32;
    Store32(mem, off, x % 0x1_0000_0000);
    Store32(mem, off + 4, x / 0x1_0000_0000);
  }

  /** `rgm_hash_copy_bytes`. */
  method CopyBytes(mem: array<u8>, off: nat, src: seq<u8>)
    requires off + |src| <= mem.Length
    modifies mem
    ensures mem[off..off + |src|] == src
    ensures forall i :: 0 <= i < mem.Length && !(off <= i < off + |src|) ==> mem[i] == old(mem[i])
  {
    var i := 0;
    while i < |src|
      invariant i <= |src| && forall k :: 0 <= k < i ==> mem[off + k] == src[k]
      invariant forall k :: 0 <= k < mem.Length && !(off <= k < off + |src|) ==> mem[k] == old(mem[k])
    {
      mem[off + i] := src[i];
      i := i + 1;
    }
  }
}
