/** Arbitrary-precision integers in the database file: a specifier byte with the sign and
    the byte count, then the magnitude in base 256, most significant byte first. The
    encoder works on the hexadecimal text of the number, two characters at a time. */
module IntegerCodec {
  import opened Bytes
  import opened Bits
  import opened Number
  import opened StringCodec

  const INTEGER_BYTES: nat := 128

  function Magnitude(n: int): nat {
    if n < 0 then -n else n
  }

  function BigEndian(m: nat): (s: seq<Byte>)
    ensures |s| > 0
  {
    if m < 256 then [m] else BigEndian(m / 256) + [m % 256]
  }

  function BigValue(s: seq<Byte>): nat {
    if s == [] then 0 else BigValue(s[..|s| - 1]) * 256 + s[|s| - 1]
  }

  /** The integers whose magnitude takes at most 128 bytes: those below 2^1024. */
  predicate Encodable(n: int) {
    |BigEndian(Magnitude(n))| <= INTEGER_BYTES
  }

  function EncodeInteger(n: int): seq<Byte>
    requires Encodable(n)
  {
    var m := BigEndian(Magnitude(n));
    [BitOr((if n < 0 then 1 else 0) * 128, |m| - 1) % 256] + m
  }

  function ParseInteger(s: seq<Byte>): Parse<int> {
    if s == [] then None else
      var count := s[0] % 128 + 1;
      if |s| < 1 + count then None else
        var m: int := BigValue(s[1..1 + count]);
        Some((if s[0] >= 128 then -m else m, s[1 + count..]))
  }

  // ------------------------------------------------------------ base 256

  lemma {:induction false} BigInverse(m: nat)
    ensures BigValue(BigEndian(m)) == m
  {
    if m >= 256 {
      BigInverse(m / 256);
      assert BigEndian(m)[..|BigEndian(m)| - 1] == BigEndian(m / 256);
    } else {
      assert [m][..0] == [];
    }
  }

  lemma {:induction false} BigValueBound(s: seq<Byte>)
    ensures BigValue(s) < Pow256(|s|)
  {
    if s != [] { BigValueBound(s[..|s| - 1]); }
  }

  lemma {:induction false} BigEndianLength(m: nat, k: nat)
    requires k > 0
    ensures |BigEndian(m)| <= k <==> m < Pow256(k)
  {
    if m < 256 {
      assert Pow256(k) == 256 * Pow256(k - 1);
    } else if k > 1 {
      BigEndianLength(m / 256, k - 1);
    } else {
      assert Pow256(1) == 256 * Pow256(0);
    }
  }

  lemma {:induction false} Pow256Grows(a: nat, b: nat)
    requires a <= b
    ensures Pow256(a) <= Pow256(b)
  {
    if a < b { Pow256Grows(a, b - 1); }
  }

  lemma SignBit(bit: nat, count: nat)
    requires bit <= 1 && count < 128
    ensures BitOr(bit * 128, count) == bit * 128 + count
  {
    assert Pow2(7) == 128;
    OrDisjoint(bit, count, 7);
  }

  /** Decoding inverts encoding on every encodable integer, of either sign. */
  lemma IntegerInverse(n: int, rest: seq<Byte>)
    requires Encodable(n)
    ensures ParseInteger(EncodeInteger(n) + rest) == Some((n, rest))
  {
    hide BitOr, BigEndian, BigValue;
    var m := BigEndian(Magnitude(n));
    var bit := if n < 0 then 1 else 0;
    SignBit(bit, |m| - 1);
    var s := [bit * 128 + |m| - 1] + m + rest;
    assert EncodeInteger(n) + rest == s;
    assert s[0] % 128 == |m| - 1 && (s[0] >= 128 <==> n < 0);
    assert s[1..1 + |m|] == m && s[1 + |m|..] == rest;
    BigInverse(Magnitude(n));
  }

  /** No bytes decode to an integer that is not encodable, so the bound is exact. */
  lemma DecodedIsEncodable(s: seq<Byte>)
    requires ParseInteger(s).Some?
    ensures Encodable(ParseInteger(s).value.0)
  {
    hide Pow256, BigEndian;
    var count := s[0] % 128 + 1;
    BigValueBound(s[1..1 + count]);
    Pow256Grows(count, INTEGER_BYTES);
    BigEndianLength(BigValue(s[1..1 + count]), INTEGER_BYTES);
  }

  /** The bound in terms of the value. */
  lemma EncodableBound(n: int)
    ensures Encodable(n) <==> Magnitude(n) < Pow2(8 * INTEGER_BYTES)
  {
    hide Pow256, BigEndian, Pow2;
    BigEndianLength(Magnitude(n), INTEGER_BYTES);
    Pow256Is(INTEGER_BYTES);
  }

  // -------------------------------------------------- hexadecimal encoding

  function HexDigit(d: nat): Byte
    requires d < 16
  {
    if d < 10 then 48 + d else 87 + d
  }

  /** The value of a hexadecimal character, as strtol reads it. */
  function HexValue(c: Byte): nat {
    if 48 <= c <= 57 then c - 48 else if 97 <= c <= 102 then c - 87 else 0
  }

  /** Lower-case hexadecimal text without leading zeros. */
  function HexText(m: nat): (s: seq<Byte>)
    ensures |s| > 0 && forall i :: 0 <= i < |s| ==> s[i] != 0
  {
    if m < 16 then [HexDigit(m)] else HexText(m / 16) + [HexDigit(m % 16)]
  }

  /** The text as the library returns it: a minus sign if negative, and a NUL at the end. */
  function HexString(n: int): seq<Byte> {
    (if n < 0 then [MINUS] else []) + HexText(Magnitude(n)) + [0]
  }

  /** The hexadecimal text with a leading zero if its length is odd. */
  function Padded(m: nat): (s: seq<Byte>) {
    var h := HexText(m);
    if |h| % 2 == 1 then [48] + h else h
  }

  /** The size in base 2, which the library counts as 1 for zero. */
  function SizeInBase2(m: nat): nat {
    if m == 0 then 1 else BitCount(m)
  }

  lemma {:induction false} ByteCountIsLength(m: nat)
    ensures (SizeInBase2(m) + 7) / 8 == |BigEndian(m)|
  {
    if m >= 256 {
      ByteCountIsLength(m / 256);
      assert BitCount(m) == 8 + BitCount(m / 256) by { BitCountBy256(m); }
    } else {
      assert Pow2(8) == 256;
      BitCountBelow(m, 8);
    }
  }

  lemma BitCountBy256(m: nat)
    requires m >= 256
    ensures BitCount(m) == 8 + BitCount(m / 256)
  {
    BitCountBy16(m);
    BitCountBy16(m / 16);
    assert m / 16 / 16 == m / 256;
  }

  lemma BitCountBy16(m: nat)
    requires m >= 16
    ensures BitCount(m) == 4 + BitCount(m / 16)
  {
    assert BitCount(m) == 1 + BitCount(m / 2);
    assert BitCount(m / 2) == 1 + BitCount(m / 2 / 2);
    assert BitCount(m / 4) == 1 + BitCount(m / 4 / 2);
    assert BitCount(m / 8) == 1 + BitCount(m / 8 / 2);
    assert m / 2 / 2 == m / 4 && m / 4 / 2 == m / 8 && m / 8 / 2 == m / 16;
  }

  lemma HexInverse(d: nat)
    requires d < 16
    ensures HexValue(HexDigit(d)) == d && HexValue(48) == 0
  {
  }

  lemma SmallPadded(m: nat)
    requires m < 256
    ensures Padded(m) == [HexDigit(m / 16), HexDigit(m % 16)]
  {
    if m >= 16 {
      assert HexText(m) == HexText(m / 16) + [HexDigit(m % 16)];
      assert HexText(m / 16) == [HexDigit(m / 16)];
    }
  }

  /** Each byte of the base-256 form is one pair of hexadecimal characters. */
  lemma {:induction false} PairsAreBytes(m: nat, i: nat)
    requires i < |BigEndian(m)|
    ensures |Padded(m)| == 2 * |BigEndian(m)|
    ensures BigEndian(m)[i] == 16 * HexValue(Padded(m)[2 * i]) + HexValue(Padded(m)[2 * i + 1])
  {
    hide HexDigit, HexValue, HexText, Padded;
    HexInverse(m % 256 / 16);
    HexInverse(m % 16);
    if m < 256 {
      SmallPadded(m);
    } else {
      PaddedStep(m);
      var last := |BigEndian(m)| - 1;
      PairsAreBytes(m / 256, if i < last then i else 0);
      assert i < last ==> BigEndian(m)[i] == BigEndian(m / 256)[i];
    }
  }

  lemma PaddedStep(m: nat)
    requires m >= 256
    ensures Padded(m) == Padded(m / 256) + [HexDigit(m % 256 / 16), HexDigit(m % 16)]
  {
    assert m / 16 / 16 == m / 256 && m / 16 % 16 == m % 256 / 16;
    assert HexText(m / 16) == HexText(m / 256) + [HexDigit(m % 256 / 16)];
    assert HexText(m) == HexText(m / 256) + [HexDigit(m % 256 / 16), HexDigit(m % 16)];
  }

  /** Writes an integer at data[len..] from its hexadecimal text, a pair of characters a byte. */
  method GenerateInteger(data: array<Byte>, len: nat, n: int) returns (next: nat)
    requires Encodable(n) && len + |EncodeInteger(n)| <= data.Length
    modifies data
    ensures next == len + |EncodeInteger(n)|
    ensures data[..next] == old(data[..len]) + EncodeInteger(n)
  {
    hide BigEndian, HexText, BitOr, Padded, HexString, HexValue, BitCount;
    var negative := if n < 0 then 1 else 0;
    var m := Magnitude(n);
    ByteCountIsLength(m);
    ghost var big := BigEndian(m);
    var byteCount := (SizeInBase2(m) + 7) / 8;
    var first := BitOr(negative * 128, byteCount - 1) % 256;
    var hex := HexString(n);
    HexLayout(n);
    var isEven := hex[byteCount * 2 - (1 - negative)] != 0;
    ghost var before := data[..len];
    next := Append(data, len, [first]);
    assert before + [first] + big[..0] == before + [first];
    for i := 0 to byteCount
      invariant next == len + 1 + i && data[..next] == before + [first] + big[..i]
    {
      var high, low;
      if i == 0 && !isEven {
        high, low := 48, hex[negative];
      } else {
        var index := (if isEven then i * 2 else i * 2 - 1) + negative;
        high, low := hex[index], hex[index + 1];
      }
      HexPair(n, i);
      assert big[..i + 1] == big[..i] + [big[i]];
      next := Append(data, next, [16 * HexValue(high) + HexValue(low)]);
      assert before + [first] + big[..i] + [big[i]] == before + [first] + (big[..i] + [big[i]]);
    }
    assert big[..byteCount] == big;
    assert before + [first] + big == before + EncodeInteger(n);
  }

  /** Where the characters of the padded text are in the library's string. */
  lemma HexLayout(n: int)
    ensures var h, negative, count := HexString(n), if n < 0 then 1 else 0, |BigEndian(Magnitude(n))|;
      && 0 <= count * 2 - (1 - negative) < |h|
      && (h[count * 2 - (1 - negative)] != 0 <==> |HexText(Magnitude(n))| % 2 == 0)
      && |h| == negative + |HexText(Magnitude(n))| + 1
      && (|HexText(Magnitude(n))| == 2 * count || |HexText(Magnitude(n))| == 2 * count - 1)
  {
    hide BigEndian, HexText;
    PairsAreBytes(Magnitude(n), 0);
    var t := HexText(Magnitude(n));
    var h, negative := HexString(n), if n < 0 then 1 else 0;
    assert forall i :: 0 <= i < |t| ==> h[negative + i] == t[i];
  }

  lemma HexPair(n: int, i: nat)
    requires i < |BigEndian(Magnitude(n))|
    ensures var t, h, negative := HexText(Magnitude(n)), HexString(n), if n < 0 then 1 else 0;
      var index := if |t| % 2 == 0 then 2 * i else 2 * i - 1;
      && |h| > negative + index + 1
      && BigEndian(Magnitude(n))[i] ==
         16 * (if i == 0 && |t| % 2 == 1 then HexValue(48) else HexValue(h[negative + index]))
         + HexValue(h[negative + index + 1])
  {
    hide BigEndian, HexText, HexValue, HexString, Padded;
    PairsAreBytes(Magnitude(n), i);
    var t, p := HexText(Magnitude(n)), Padded(Magnitude(n));
    HexChars(n);
    var odd := if |t| % 2 == 1 then 1 else 0;
    PaddedChars(Magnitude(n));
    assert p[2 * i + 1] == t[2 * i + 1 - odd];
    assert i > 0 || odd == 0 ==> p[2 * i] == t[2 * i - odd];
  }

  lemma HexChars(n: int)
    ensures var t, h, negative := HexText(Magnitude(n)), HexString(n), if n < 0 then 1 else 0;
      |h| == negative + |t| + 1 && forall j :: 0 <= j < |t| ==> h[negative + j] == t[j]
  {
  }

  lemma PaddedChars(m: nat)
    ensures var t, p := HexText(m), Padded(m);
      var odd := if |t| % 2 == 1 then 1 else 0;
      |p| == |t| + odd && (odd == 1 ==> p[0] == 48) && forall j :: odd <= j < |p| ==> p[j] == t[j - odd]
  {
  }

  /** The base-256 fold of the decoder: shift by eight bits and OR in the next byte. */
  method FoldBytes(data: seq<Byte>) returns (number: nat)
    requires |data| > 0
    ensures number == BigValue(data)
  {
    hide BitOr;
    number := 0;
    var end := |data| - 1;
    assert data[..0] == [];
    for i := 0 to end
      invariant number == 256 * BigValue(data[..i])
    {
      OrByte(BigValue(data[..i]), data[i]);
      number := BitOr(number, data[i]);
      assert data[..i + 1][..i] == data[..i];
      number := number * 256;
    }
    OrByte(BigValue(data[..end]), data[end]);
    number := BitOr(number, data[end]);
    assert data[..end + 1] == data;
  }

  lemma OrByte(a: nat, b: Byte)
    ensures BitOr(256 * a, b) == 256 * a + b
  {
    assert Pow2(8) == 256;
    OrDisjoint(a, b, 8);
  }
}
