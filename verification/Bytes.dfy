/** Bytes, optional values and the fixed-width little-endian layout that
    memcpy of an unsigned integer gives on the supported machines. */
module Bytes {

  type Byte = b: int | 0 <= b < 256

  datatype Option<+T> = None | Some(value: T)

  /** The low `width` bytes of n, least significant first. */
  function LittleEndian(n: nat, width: nat): (s: seq<Byte>)
    ensures |s| == width
  {
    if width == 0 then [] else [n % 256] + LittleEndian(n / 256, width - 1)
  }

  /** The number whose low bytes are s, least significant first. */
  function FromLittleEndian(s: seq<Byte>): (n: nat)
  {
    if s == [] then 0 else s[0] + 256 * FromLittleEndian(s[1..])
  }

  function Pow256(k: nat): (p: nat)
    ensures p > 0
  {
    if k == 0 then 1 else 256 * Pow256(k - 1)
  }

  /** Copying `width` low bytes out and back keeps exactly the numbers that fit in them. */
  lemma {:induction false} LittleEndianInverse(n: nat, width: nat)
    ensures FromLittleEndian(LittleEndian(n, width)) == n <==> n < Pow256(width)
  {
    if width > 0 {
      LittleEndianInverse(n / 256, width - 1);
      var s := LittleEndian(n, width);
      assert s[1..] == LittleEndian(n / 256, width - 1);
    }
  }

  /** memcpy of `src` to dst[at..], returning the position after it. */
  method Append(dst: array<Byte>, at: nat, src: seq<Byte>) returns (next: nat)
    requires at + |src| <= dst.Length
    modifies dst
    ensures next == at + |src| && dst[..next] == old(dst[..at]) + src
    ensures dst[next..] == old(dst[next..])
  {
    next := at + |src|;
    forall i | 0 <= i < |src| {
      dst[at + i] := src[i];
    }
    assert dst[..at] == old(dst[..at]);
    assert dst[at..next] == src;
  }
}
