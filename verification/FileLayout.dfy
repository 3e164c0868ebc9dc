/** The bytes of the database file, value by value: the numbers that the encoder and the
    decoder agree on are those of the file format. */
module FileLayout {
  import opened Bytes
  import opened Bits
  import opened Number
  import opened Probing
  import opened StringCodec
  import opened IntegerCodec
  import opened ValueCodec

  /** A string of less than 64 bytes has its length in front. */
  lemma ShortString(s: Str)
    requires |s| < 64
    ensures EncodeString(s) == [|s|] + s
  {
    hide BitAnd, BitOr;
    SixBits(0, |s|);
    assert ByteCount(0) == 0;
  }

  /** The documented example of a length with two additional bytes. */
  lemma LongSpecifier()
    ensures Specifier(147938) == [0xA2, 0x07, 0x09]
  {
    hide BitAnd, BitOr, ByteCount;
    SixBits(2, 147938);
    assert ByteCount(2311) == 2 by { TwoBytes(); }
    assert LittleEndian(2311, 2) == [0x07] + LittleEndian(9, 1);
    assert LittleEndian(9, 1) == [0x09] + LittleEndian(0, 0);
  }

  lemma TwoBytes()
    ensures ByteCount(2311) == 2
  {
    hide ByteCount;
    ByteCountFits(2311, 1);
    ByteCountFits(2311, 2);
    assert Pow256(1) == 256 * Pow256(0) && Pow256(2) == 256 * Pow256(1);
  }

  /** A small number: its sign and one less than its byte count, then its bytes. */
  lemma OneByteInteger(n: int)
    requires -256 < n < 256
    ensures Encodable(n) && EncodeInteger(n) == [if n < 0 then 0x80 else 0, if n < 0 then -n else n]
  {
    hide BitOr;
    SignBit(if n < 0 then 1 else 0, 0);
  }

  /** Bytes of a number go from the most significant one on. */
  lemma TwoByteInteger()
    ensures Encodable(-258) && EncodeInteger(-258) == [0x81, 1, 2]
  {
    hide BitOr;
    assert BigEndian(258) == BigEndian(1) + [2];
    SignBit(1, 1);
  }

  lemma SmallCount(n: nat)
    requires n < 256
    ensures LittleEndian(n, 8) == [n, 0, 0, 0, 0, 0, 0, 0]
  {
    assert LittleEndian(n, 8) == [n] + LittleEndian(0, 7);
    assert LittleEndian(0, 7) == [0] + LittleEndian(0, 6);
    assert LittleEndian(0, 6) == [0] + LittleEndian(0, 5);
    assert LittleEndian(0, 5) == [0] + LittleEndian(0, 4);
    assert LittleEndian(0, 4) == [0] + LittleEndian(0, 3);
    assert LittleEndian(0, 3) == [0] + LittleEndian(0, 2);
    assert LittleEndian(0, 2) == [0] + LittleEndian(0, 1);
    assert LittleEndian(0, 1) == [0] + LittleEndian(0, 0);
  }

  const KEY: Str := [107]

  /** One pair of each type under the key "k": an integer, a string and a boolean. */
  lemma PairBytes()
    ensures var e := Entry(KEY, Single(Integer(5))); PairOk(e) && EncodePair(e) == [1, 107, 0x02, 0, 5]
    ensures var e := Entry(KEY, Single(Text([97, 98]))); PairOk(e) && EncodePair(e) == [1, 107, 0x04, 2, 97, 98]
    ensures var e := Entry(KEY, Single(Boolean(true))); PairOk(e) && EncodePair(e) == [1, 107, 0x05, 1]
    ensures var e := Entry(KEY, Single(Boolean(false))); PairOk(e) && EncodePair(e) == [1, 107, 0x05, 0]
  {
    hide EncodeString, EncodeInteger, Encodable;
    ShortString(KEY);
    ShortString([97, 98]);
    OneByteInteger(5);
  }

  /** A list of a null and a boolean: its type, its size in eight bytes, its items. */
  lemma ListBytes()
    ensures var e := Entry(KEY, List([Null, Boolean(true)]));
      PairOk(e) && EncodePair(e) == [1, 107, 0x07, 2, 0, 0, 0, 0, 0, 0, 0, 0x01, 0x05, 1]
  {
    hide EncodeString, LittleEndian, Pow256;
    ShortString(KEY);
    SmallCount(2);
    assert 2 < Pow256(8) by { EightBytes(); }
    var items := [Null, Boolean(true)];
    assert items[1..] == [Boolean(true)];
    assert EncodeItems([Boolean(true)]) == EncodeItem(Boolean(true)) + EncodeItems([]);
    assert EncodeItems(items) == EncodeItem(Null) + EncodeItems([Boolean(true)]);
  }

  lemma EightBytes()
    ensures Pow256(8) > 0xFFFF
  {
    assert Pow256(2) == 0x1_0000;
    Pow256Grows(2, 8);
    assert Pow256(8) == 256 * Pow256(7);
    Pow256Grows(2, 7);
  }

  /** A table of two slots with one field "f": its type, its allocated size in eight bytes,
      the fields, each with its type, its name and its value, and the end mark. */
  lemma TableBytes()
    ensures var e := Entry(KEY, Table([None, Some(Entry([102], Boolean(false)))]));
      PairOk(e) && EncodePair(e) == [1, 107, 0x06, 2, 0, 0, 0, 0, 0, 0, 0, 0x05, 1, 102, 0, 0x17]
  {
    hide EncodeString, EncodeField, LittleEndian, Pow256, Listed;
    ShortString(KEY);
    SmallCount(2);
    EightBytes();
    var field := Entry([102], Boolean(false));
    FieldListed(field);
    FieldBytes();
    assert EncodeFields([field]) == EncodeField(field) + EncodeFields([]);
  }

  lemma FieldBytes()
    ensures var e := Entry([102], Boolean(false)); FieldOk(e) && EncodeField(e) == [0x05, 1, 102, 0]
  {
    hide EncodeString;
    ShortString([102]);
  }

  lemma FieldListed(e: Entry<Str, Scalar>)
    ensures Listed([None, Some(e)]) == [e]
  {
    var slots: Slots<Str, Scalar> := [None, Some(e)];
    assert slots[..1] == [None] && slots[..1][..0] == [];
    assert Listed(slots[..1]) == [];
  }

  /** An empty database "d": the number of pairs in eight bytes, and the name. */
  lemma DatabaseBytes()
    ensures var d := Database([100], []);
      DatabaseOk(d) && EncodeDatabase(d) == [0, 0, 0, 0, 0, 0, 0, 0, 1, 100]
  {
    hide EncodeString, LittleEndian, Pow256;
    ShortString([100]);
    SmallCount(0);
    EightBytes();
  }
}
