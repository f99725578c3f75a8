/** Little-endian words in byte sequences. */
module Bytes {
  import opened Machine

  function Load32(p: seq<u8>, off: nat): u32
    requires off + 4 <= |p|
  {
    p[off] as int + 0x100 * p[off + 1] as int + 0x1_0000 * p[off + 2] as int + 0x100_0000 * p[off + 3] as int
  }

  function Load64(p: seq<u8>, off: nat): u64
    requires off + 8 <= |p|
  {
    Load32(p, off) + Load32(p, off + 4) * TWO_32
  }

  function LE32(x: u32): (b: seq<u8>)
    ensures |b| == 4 && Load32(b, 0) == x
  {
    SplitBytes(x);
    [x % 0x100, x / 0x100 % 0x100, x / 0x1_0000 % 0x100, x / 0x100_0000]
  }

  lemma SplitBytes(x: u32)
    ensures x == x % 0x100 + 0x100 * (x / 0x100 % 0x100) + 0x1_0000 * (x / 0x1_0000 % 0x100) + 0x100_0000 * (x / 0x100_0000)
    ensures x / 0x100_0000 < 0x100
  {
    NextByte(x, 0x100);
    NextByte(x, 0x1_0000);
  }

  /** Dividing by a scale and then by 256. */
  lemma NextByte(x: u32, scale: nat)
    requires scale == 0x100 || scale == 0x1_0000
    ensures x / scale == x / scale % 0x100 + 0x100 * (x / (0x100 * scale))
  {
  }

  function LE64(x: u64): (b: seq<u8>)
    ensures |b| == 8 && Load64(b, 0) == x
  {
    var b := LE32(x % TWO_32) + LE32(x / TWO_32);
    assert b[..4] == LE32(x % TWO_32) && b[4..] == LE32(x / TWO_32);
    LoadSlice(b, 0, 0, b[..4]);
    LoadSlice(b, 4, 0, b[4..]);
    b
  }

  /** The lowest byte comes first. */
  lemma LittleEndian(p: seq<u8>, off: nat)
    requires off + 8 <= |p|
    ensures Load32(p, off) % 0x100 == p[off] && Load32(p, off) / 0x100_0000 == p[off + 3]
    ensures Load64(p, off) % 0x1_0000_0000 == Load32(p, off) && Load64(p, off) / 0x1_0000_0000 == Load32(p, off + 4)
  {
  }

  /** A load only sees its own bytes. */
  lemma LoadSlice(p: seq<u8>, i: nat, j: nat, q: seq<u8>)
    requires i + 4 <= |p| && j + 4 <= |q| && p[i..i + 4] == q[j..j + 4]
    ensures Load32(p, i) == Load32(q, j)
  {
    var (a, b) := (p[i..i + 4], q[j..j + 4]);
    assert a[0] == p[i] && a[1] == p[i + 1] && a[2] == p[i + 2] && a[3] == p[i + 3];
    assert b[0] == q[j] && b[1] == q[j + 1] && b[2] == q[j + 2] && b[3] == q[j + 3];
  }

  lemma Digits(a0: u8, a1: u8, a2: u8, a3: u8, b0: u8, b1: u8, b2: u8, b3: u8)
    requires a0 + 0x100 * a1 + 0x1_0000 * a2 + 0x100_0000 * a3 == b0 + 0x100 * b1 + 0x1_0000 * b2 + 0x100_0000 * b3
    ensures a0 == b0 && a1 == b1 && a2 == b2 && a3 == b3
  {
    LowDigit(a0, a1 + 0x100 * a2 + 0x1_0000 * a3, b0, b1 + 0x100 * b2 + 0x1_0000 * b3);
    LowDigit(a1, a2 + 0x100 * a3, b1, b2 + 0x100 * b3);
    LowDigit(a2, a3, b2, b3);
  }

  lemma LowDigit(a: u8, x: int, b: u8, y: int)
    requires a + 0x100 * x == b + 0x100 * y
    ensures a == b && x == y
  {
  }

  lemma FourBytes(p: seq<u8>, i: nat)
    requires i + 4 <= |p|
    ensures p[i..i + 4] == [p[i], p[i + 1], p[i + 2], p[i + 3]]
  {
  }

  lemma WordBytes(p: seq<u8>, i: nat, q: seq<u8>, j: nat)
    requires i + 4 <= |p| && j + 4 <= |q| && Load32(p, i) == Load32(q, j)
    ensures p[i..i + 4] == q[j..j + 4]
  {
    Digits(p[i], p[i + 1], p[i + 2], p[i + 3], q[j], q[j + 1], q[j + 2], q[j + 3]);
    FourBytes(p, i);
    FourBytes(q, j);
  }

  /** Four bytes are equal exactly when their words are. */
  lemma SameWord32(p: seq<u8>, i: nat, q: seq<u8>, j: nat)
    requires i + 4 <= |p| && j + 4 <= |q|
    ensures Load32(p, i) == Load32(q, j) <==> p[i..i + 4] == q[j..j + 4]
  {
    if p[i..i + 4] == q[j..j + 4] {
      LoadSlice(p, i, j, q);
    } else if Load32(p, i) == Load32(q, j) {
      WordBytes(p, i, q, j);
    }
  }

  lemma SameWord64(p: seq<u8>, i: nat, q: seq<u8>, j: nat)
    requires i + 8 <= |p| && j + 8 <= |q|
    ensures Load64(p, i) == Load64(q, j) <==> p[i..i + 8] == q[j..j + 8]
  {
    SameWord32(p, i, q, j);
    SameWord32(p, i + 4, q, j + 4);
    assert p[i..i + 8] == p[i..i + 4] + p[i + 4..i + 8];
    assert q[j..j + 8] == q[j..j + 4] + q[j + 4..j + 8];
    assert p[i..i + 4] == p[i..i + 8][..4] && p[i + 4..i + 8] == p[i..i + 8][4..];
    assert q[j..j + 4] == q[j..j + 8][..4] && q[j + 4..j + 8] == q[j..j + 8][4..];
  }

  /** A 32-bit store. */
  function Put32(m: seq<u8>, off: nat, x: u32): (r: seq<u8>)
    requires off + 4 <= |m|
    ensures |r| == |m|
  {
    m[..off] + LE32(x) + m[off + 4..]
  }

  /** A 64-bit store. */
  function Put64(m: seq<u8>, off: nat, x: u64): (r: seq<u8>)
    requires off + 8 <= |m|
    ensures |r| == |m|
  {
    Put32(Put32(m, off, x % 0x1_0000_0000), off + 4, x / 0x1_0000_0000)
  }
}
