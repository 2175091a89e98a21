/** Sixteen-byte blocks and exclusive or. */
module OctetBlocks {
  import opened Arith
  import opened Bytes

  type Block = b: seq<byte> | |b| == 16 witness seq(16, _ => 0)

  /** x ^ y on bytes. */
  function Xor(x: byte, y: byte): (z: byte) {
    Pow2Small(); BitXorBound(x, y, 8);
    BitXor(x, y)
  }

  lemma XorTwice(x: byte, y: byte)
    ensures Xor(Xor(x, y), y) == x && Xor(x, 0) == x
  {
    BitXorTwice(x, y); BitXorZero(x);
  }

  function Zeroes(n: nat): (s: seq<byte>)
    ensures |s| == n && forall i :: 0 <= i < n ==> s[i] == 0
  {
    seq(n, _ => 0)
  }

  /** y with s xored in at offset off. */
  function XorAt(y: Block, off: nat, s: seq<byte>): (r: Block)
    requires off + |s| <= 16
    ensures forall i :: 0 <= i < 16 ==> r[i] == if off <= i < off + |s| then Xor(y[i], s[i - off]) else y[i]
  {
    seq(16, i requires 0 <= i < 16 => if off <= i < off + |s| then Xor(y[i], s[i - off]) else y[i])
  }
}
