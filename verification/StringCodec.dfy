/** Strings in the database file: a length specifier of one to four bytes, then the bytes. */
module StringCodec {
  import opened Bytes
  import opened Bits
  import opened Number

  const STRING_LIMIT: nat := 0x4000_0000

  type Parse<+T> = Option<(T, seq<Byte>)>

  /** The first byte holds the number of further length bytes in its two high bits, cut to
      eight bits, and the low six bits of the length. */
  function Specifier(length: nat): (s: seq<Byte>)
    ensures |s| > 0
  {
    var n := ByteCount(length / 64);
    [BitOr(n * 64, BitAnd(length, 63)) % 256] + LittleEndian(length / 64, n)
  }

  function EncodeString(s: seq<Byte>): seq<Byte> {
    Specifier(|s|) + s
  }

  /** Reads a length specifier off the front of s. */
  function ParseLength(s: seq<Byte>): Parse<nat> {
    if s == [] then None else
      var n := s[0] / 64;
      if |s| < 1 + n then None
      else Some((BitOr(FromLittleEndian(s[1..1 + n]) * 64, BitAnd(s[0], 63)), s[1 + n..]))
  }

  function ParseString(s: seq<Byte>): Parse<seq<Byte>> {
    match ParseLength(s)
    case None => None
    case Some((length, rest)) => if |rest| < length then None else Some((rest[..length], rest[length..]))
  }

  lemma SixBits(a: nat, b: nat)
    ensures BitAnd(b, 63) == b % 64
    ensures BitOr(a * 64, b % 64) == a * 64 + b % 64
  {
    assert Pow2(6) == 64;
    AndMask(b, 6);
    OrDisjoint(a, b % 64, 6);
  }

  lemma ByteCountFits(n: nat, k: nat)
    ensures n < Pow256(k) <==> ByteCount(n) <= k
  {
    Pow256Is(k);
    if n < Pow256(k) {
      BitCountBelow(n, 8 * k);
    } else {
      BitCountBounds(n);
      if ByteCount(n) <= k { Pow2Monotone(BitCount(n), 8 * k); }
    }
  }

  lemma {:induction false} Pow256Is(k: nat)
    ensures Pow256(k) == Pow2(8 * k)
  {
    if k > 0 {
      Pow256Is(k - 1);
      Pow2By3(8 * k - 8);
      Pow2By3(8 * k - 4);
    }
  }

  lemma ShortLength(length: nat, rest: seq<Byte>)
    requires ByteCount(length / 64) <= 3
    ensures ParseLength(Specifier(length) + rest) == Some((length, rest))
  {
    hide ByteCount, BitOr, BitAnd;
    var high, n := length / 64, ByteCount(length / 64);
    SixBits(n, length);
    var s := Specifier(length) + rest;
    ByteCountFits(high, n);
    LittleEndianInverse(high, n);
    assert s[0] == n * 64 + length % 64;
    assert s[1..1 + n] == LittleEndian(high, n) && s[1 + n..] == rest;
    SixBits(high, s[0]);
  }

  lemma LongLength(length: nat, rest: seq<Byte>)
    requires ByteCount(length / 64) == 4
    ensures ParseLength(Specifier(length) + rest) != Some((length, rest))
  {
    hide ByteCount, BitOr, BitAnd;
    SixBits(4, length);
    var s := Specifier(length) + rest;
    assert s[0] == length % 64;
    SixBits(FromLittleEndian(s[1..1]), s[0]);
    assert |s[1..]| > |rest|;
  }

  /** The specifier is read back as the length it was made from exactly below 2^30. */
  lemma LengthInverse(length: nat, rest: seq<Byte>)
    requires length < 0x1_0000_0000
    ensures ParseLength(Specifier(length) + rest) == Some((length, rest)) <==> length < STRING_LIMIT
  {
    hide ByteCount, Specifier, ParseLength;
    Pow256Values();
    ByteCountFits(length / 64, 3);
    ByteCountFits(length / 64, 4);
    if length < STRING_LIMIT { ShortLength(length, rest); } else { LongLength(length, rest); }
  }

  lemma Pow256Values()
    ensures Pow256(3) == 0x100_0000 && Pow256(4) == 0x1_0000_0000
  {
    assert Pow256(3) == 256 * Pow256(2) && Pow256(2) == 256 * Pow256(1);
  }

  lemma StringInverse(x: seq<Byte>, rest: seq<Byte>)
    requires |x| < STRING_LIMIT
    ensures ParseString(EncodeString(x) + rest) == Some((x, rest))
  {
    hide Specifier, ParseLength;
    assert EncodeString(x) + rest == Specifier(|x|) + (x + rest);
    LengthInverse(|x|, x + rest);
    assert (x + rest)[..|x|] == x && (x + rest)[|x|..] == rest;
  }

  /** Writes a string at data[len..]; returns the new position and the bytes written. */
  method GenerateString(data: array<Byte>, len: nat, s: seq<Byte>) returns (next: nat, written: nat)
    requires len + |EncodeString(s)| <= data.Length
    modifies data
    ensures next == len + written && written == |EncodeString(s)|
    ensures data[..next] == old(data[..len]) + EncodeString(s)
  {
    hide ByteCount, BitOr, BitAnd, LittleEndian;
    var n := ByteCount(|s| / 64);
    var first := BitOr(n * 64, BitAnd(|s|, 63)) % 256;
    ghost var before := data[..len];
    next := Append(data, len, [first]);
    next := Append(data, next, LittleEndian(|s| / 64, n));
    next := Append(data, next, s);
    assert before + [first] + LittleEndian(|s| / 64, n) + s == before + EncodeString(s);
    written := 1 + n + |s|;
  }
}
