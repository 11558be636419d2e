/** Bytes, byte strings and the big-endian 32-bit field encoding used by the
    EverDrive-64 command frames. */
module Bytes {

  /** One `unsigned char`. */
  newtype byte = x: int | 0 <= x < 0x100

  const Two32: nat := 0x1_0000_0000

  function Min(a: int, b: int): (m: int)
    ensures m <= a && m <= b && (m == a || m == b)
  {
    if a <= b then a else b
  }

  /** `n` zero bytes: what `memset(p, 0, n)` leaves behind. */
  function Zeros(n: nat): (z: seq<byte>)
    ensures |z| == n
    ensures forall i :: 0 <= i < n ==> z[i] == 0
  {
    seq(n, _ => 0)
  }

  /** `s` with the bytes `b` stored from index `at` on; every other byte keeps its value. */
  function Put(s: seq<byte>, at: nat, b: seq<byte>): (r: seq<byte>)
    requires at + |b| <= |s|
    ensures |r| == |s|
    ensures forall i {:trigger r[i]} :: 0 <= i < |s| ==> r[i] == if at <= i < at + |b| then b[i - at] else s[i]
  {
    seq(|s|, i requires 0 <= i < |s| => if at <= i < at + |b| then b[i - at] else s[i])
  }

  /** At most the first `n` bytes of `s`: what a bounded read delivers. */
  function Take(s: seq<byte>, n: nat): (r: seq<byte>)
    ensures |r| == Min(|s|, n)
    ensures r == s[..|r|]
  {
    if |s| <= n then s else s[..n]
  }

  /** The four bytes `(char)(v >> 24)`, `(char)(v >> 16)`, `(char)(v >> 8)`, `(char)v`
      of a non-negative C int: each cast keeps the low eight bits of the shifted value. */
  function BE32(v: nat): (r: seq<byte>)
    ensures |r| == 4
  {
    [(v / 0x100_0000 % 0x100) as byte,
     (v / 0x1_0000 % 0x100) as byte,
     (v / 0x100 % 0x100) as byte,
     (v % 0x100) as byte]
  }

  /** Reads four bytes as one big-endian unsigned 32-bit value. */
  function FromBE32(b: seq<byte>): (v: nat)
    requires |b| == 4
    ensures v < Two32
  {
    ((b[0] as nat * 0x100 + b[1] as nat) * 0x100 + b[2] as nat) * 0x100 + b[3] as nat
  }

  /** Decoding the encoding recovers the value modulo 2^32: the encoding keeps
      exactly the low 32 bits and drops the rest. */
  lemma FromBE32OfBE32(v: nat)
    ensures FromBE32(BE32(v)) == v % Two32
  {
    var q1 := v / 0x100;
    var q2 := q1 / 0x100;
    var q3 := q2 / 0x100;
    var q4 := q3 / 0x100;
    var r0, r1, r2, r3 := v % 0x100, q1 % 0x100, q2 % 0x100, q3 % 0x100;
    assert v == ((((q4 * 0x100 + r3) * 0x100 + r2) * 0x100 + r1) * 0x100 + r0);
    assert v == q4 * Two32 + (((r3 * 0x100 + r2) * 0x100 + r1) * 0x100 + r0);
    assert v / 0x1_0000 == q2;
    assert v / 0x100_0000 == q3;
    assert BE32(v) == [r3 as byte, r2 as byte, r1 as byte, r0 as byte];
  }

  /** A value below 2^32 is its own low 32 bits. */
  lemma LowBitsOfSmall(v: nat)
    requires v < Two32
    ensures v % Two32 == v
  {
  }

  /** Encoding the decoded value gives back the same four bytes. */
  lemma BE32OfFromBE32(b: seq<byte>)
    requires |b| == 4
    ensures BE32(FromBE32(b)) == b
  {
    var v := FromBE32(b);
    var b0, b1, b2, b3 := b[0] as nat, b[1] as nat, b[2] as nat, b[3] as nat;
    var h2 := (b0 * 0x100 + b1) * 0x100 + b2;
    var h1 := b0 * 0x100 + b1;
    assert v == h2 * 0x100 + b3;
    assert v / 0x100 == h2 && v % 0x100 == b3;
    assert h2 / 0x100 == h1 && h2 % 0x100 == b2;
    assert h1 / 0x100 == b0 && h1 % 0x100 == b1;
    assert v == h1 * 0x1_0000 + (b2 * 0x100 + b3);
    assert v / 0x1_0000 == h1;
    assert v == b0 * 0x100_0000 + ((b1 * 0x100 + b2) * 0x100 + b3);
    assert v / 0x100_0000 == b0;
    assert b0 < 0x100;
  }
}
