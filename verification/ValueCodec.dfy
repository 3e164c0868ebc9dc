/** Key-value pairs and databases as bytes: the layout the encoder writes, the parser that
    reads it, and the proof that the second undoes the first. A hash table is its array of
    slots, so that what is written is what a walk over the slots lists. */
module ValueCodec {
  import opened Bytes
  import opened Probing
  import opened StringCodec
  import opened IntegerCodec

  type Str = seq<Byte>

  datatype Scalar = Null | Integer(n: int) | Text(s: Str) | Boolean(b: bool)

  datatype Value = Single(scalar: Scalar) | Table(slots: Slots<Str, Scalar>) | List(items: seq<Scalar>)

  const TYPE_NULL: Byte := 1
  const TYPE_INTEGER: Byte := 2
  const TYPE_TEXT: Byte := 4
  const TYPE_BOOLEAN: Byte := 5
  const TYPE_TABLE: Byte := 6
  const TYPE_LIST: Byte := 7
  const TABLE_END: Byte := 0x17

  function ScalarType(v: Scalar): Byte {
    match v
    case Null => TYPE_NULL
    case Integer(_) => TYPE_INTEGER
    case Text(_) => TYPE_TEXT
    case Boolean(_) => TYPE_BOOLEAN
  }

  function ValueType(v: Value): Byte {
    match v
    case Single(s) => ScalarType(s)
    case Table(_) => TYPE_TABLE
    case List(_) => TYPE_LIST
  }

  /** What fits the file format: the documented limits on lengths and magnitudes. */
  predicate ScalarOk(v: Scalar) {
    match v
    case Null => true
    case Integer(n) => Encodable(n)
    case Text(s) => |s| < STRING_LIMIT
    case Boolean(_) => true
  }

  predicate FieldOk(e: Entry<Str, Scalar>) {
    |e.key| < STRING_LIMIT && ScalarOk(e.value) && !e.value.Null?
  }

  ghost predicate ValueOk(v: Value) {
    match v
    case Single(s) => ScalarOk(s) && !s.Null?
    case Table(slots) =>
      && 0 < |slots| < Pow256(8) && UniqueKeys(slots) && 4 * |Listed(slots)| < 3 * |slots| + 4
      && forall i :: 0 <= i < |Listed(slots)| ==> FieldOk(Listed(slots)[i])
    case List(items) => |items| < Pow256(8) && forall i :: 0 <= i < |items| ==> ScalarOk(items[i])
  }

  ghost predicate PairOk(e: Entry<Str, Value>) {
    |e.key| < STRING_LIMIT && ValueOk(e.value)
  }

  // ---------------------------------------------------------------- encoding

  function EncodeScalar(v: Scalar): seq<Byte>
    requires ScalarOk(v)
  {
    match v
    case Null => []
    case Integer(n) => EncodeInteger(n)
    case Text(s) => EncodeString(s)
    case Boolean(b) => [if b then 1 else 0]
  }

  function EncodeField(e: Entry<Str, Scalar>): seq<Byte>
    requires FieldOk(e)
  {
    [ScalarType(e.value)] + EncodeString(e.key) + EncodeScalar(e.value)
  }

  function EncodeItem(v: Scalar): seq<Byte>
    requires ScalarOk(v)
  {
    [ScalarType(v)] + EncodeScalar(v)
  }

  function EncodeFields(es: seq<Entry<Str, Scalar>>): seq<Byte>
    requires forall i :: 0 <= i < |es| ==> FieldOk(es[i])
  {
    if es == [] then [] else EncodeField(es[0]) + EncodeFields(es[1..])
  }

  function EncodeItems(vs: seq<Scalar>): seq<Byte>
    requires forall i :: 0 <= i < |vs| ==> ScalarOk(vs[i])
  {
    if vs == [] then [] else EncodeItem(vs[0]) + EncodeItems(vs[1..])
  }

  function EncodeBody(v: Value): seq<Byte>
    requires ValueOk(v)
  {
    match v
    case Single(s) => EncodeScalar(s)
    case Table(slots) => LittleEndian(|slots|, 8) + EncodeFields(Listed(slots)) + [TABLE_END]
    case List(items) => LittleEndian(|items|, 8) + EncodeItems(items)
  }

  function EncodePair(e: Entry<Str, Value>): (s: seq<Byte>)
    requires PairOk(e)
    ensures |s| > 0
  {
    EncodeString(e.key) + [ValueType(e.value)] + EncodeBody(e.value)
  }

  function EncodePairs(es: seq<Entry<Str, Value>>): seq<Byte>
    requires forall i :: 0 <= i < |es| ==> PairOk(es[i])
  {
    if es == [] then [] else EncodePair(es[0]) + EncodePairs(es[1..])
  }

  // ----------------------------------------------------------------- parsing

  /** A decoded value: the entries of a table are in file order, with its saved capacity. */
  datatype Decoded =
    | DSingle(scalar: Scalar)
    | DTable(capacity: nat, fields: seq<Entry<Str, Scalar>>)
    | DList(items: seq<Scalar>)

  function ParseScalar(kind: Byte, s: seq<Byte>): Parse<Scalar> {
    if kind == TYPE_NULL then Some((Null, s))
    else if kind == TYPE_INTEGER then
      match ParseInteger(s)
      case None => None
      case Some((n, rest)) => Some((Integer(n), rest))
    else if kind == TYPE_TEXT then
      match ParseString(s)
      case None => None
      case Some((t, rest)) => Some((Text(t), rest))
    else if kind == TYPE_BOOLEAN then
      if s == [] || s[0] > 1 then None else Some((Boolean(s[0] == 1), s[1..]))
    else None
  }

  function ParseItems(n: nat, s: seq<Byte>): (r: Parse<seq<Scalar>>) {
    if n == 0 then Some(([], s))
    else if s == [] then None
    else
      match ParseScalar(s[0], s[1..])
      case None => None
      case Some((v, rest)) =>
        match ParseItems(n - 1, rest)
        case None => None
        case Some((vs, rest')) => Some(([v] + vs, rest'))
  }

  lemma ParseShrinks(s: seq<Byte>)
    ensures ParseLength(s).Some? ==> |ParseLength(s).value.1| < |s|
    ensures ParseString(s).Some? ==> |ParseString(s).value.1| < |s|
  {
  }

  lemma ScalarShrinks(kind: Byte, s: seq<Byte>)
    ensures ParseScalar(kind, s).Some? ==> |ParseScalar(kind, s).value.1| <= |s|
  {
    ParseShrinks(s);
  }

  /** Fields up to the end mark. */
  function ParseFields(s: seq<Byte>): (r: Parse<seq<Entry<Str, Scalar>>>)
    decreases |s|
  {
    if s == [] then None
    else if s[0] == TABLE_END then Some(([], s[1..]))
    else
      ParseShrinks(s[1..]);
      match ParseString(s[1..])
      case None => None
      case Some((key, rest)) =>
        ScalarShrinks(s[0], rest);
        match ParseScalar(s[0], rest)
        case None => None
        case Some((v, rest')) =>
          match ParseFields(rest')
          case None => None
          case Some((es, rest'')) => Some(([Entry(key, v)] + es, rest''))
  }

  function ParseCount(s: seq<Byte>): Parse<nat> {
    if |s| < 8 then None else Some((FromLittleEndian(s[..8]), s[8..]))
  }

  function ParseBody(kind: Byte, s: seq<Byte>): Parse<Decoded> {
    if kind == TYPE_TABLE then
      match ParseCount(s)
      case None => None
      case Some((capacity, rest)) =>
        if capacity == 0 then None else
          match ParseFields(rest)
          case None => None
          case Some((fields, rest')) => Some((DTable(capacity, fields), rest'))
    else if kind == TYPE_LIST then
      match ParseCount(s)
      case None => None
      case Some((count, rest)) =>
        match ParseItems(count, rest)
        case None => None
        case Some((items, rest')) => Some((DList(items), rest'))
    else
      match ParseScalar(kind, s)
      case None => None
      case Some((v, rest)) => Some((DSingle(v), rest))
  }

  function ParsePair(s: seq<Byte>): Parse<Entry<Str, Decoded>> {
    match ParseString(s)
    case None => None
    case Some((key, rest)) =>
      if rest == [] then None else
        match ParseBody(rest[0], rest[1..])
        case None => None
        case Some((v, rest')) => Some((Entry(key, v), rest'))
  }

  function ParsePairs(n: nat, s: seq<Byte>): Parse<seq<Entry<Str, Decoded>>> {
    if n == 0 then Some(([], s)) else
      match ParsePair(s)
      case None => None
      case Some((e, rest)) =>
        match ParsePairs(n - 1, rest)
        case None => None
        case Some((es, rest')) => Some(([e] + es, rest'))
  }

  // -------------------------------------------------- parsing undoes encoding

  /** What the decoder gets back from a value: a table's entries in the order of the walk. */
  function Decode(v: Value): Decoded {
    match v
    case Single(s) => DSingle(s)
    case Table(slots) => DTable(|slots|, Listed(slots))
    case List(items) => DList(items)
  }

  function DecodePair(e: Entry<Str, Value>): Entry<Str, Decoded> {
    Entry(e.key, Decode(e.value))
  }

  lemma ScalarInverse(v: Scalar, rest: seq<Byte>)
    requires ScalarOk(v)
    ensures ParseScalar(ScalarType(v), EncodeScalar(v) + rest) == Some((v, rest))
  {
    match v
    case Null => assert [] + rest == rest;
    case Integer(n) => IntegerInverse(n, rest);
    case Text(s) => StringInverse(s, rest);
    case Boolean(b) => assert ([if b then 1 else 0] + rest)[1..] == rest;
  }

  lemma {:induction false} ItemsInverse(vs: seq<Scalar>, rest: seq<Byte>)
    requires forall i :: 0 <= i < |vs| ==> ScalarOk(vs[i])
    ensures ParseItems(|vs|, EncodeItems(vs) + rest) == Some((vs, rest))
  {
    hide EncodeScalar, ParseScalar, ScalarType, ScalarOk;
    if vs == [] {
      assert [] + rest == rest;
    } else {
      var tail := EncodeItems(vs[1..]) + rest;
      var s := EncodeItems(vs) + rest;
      assert s == [ScalarType(vs[0])] + (EncodeScalar(vs[0]) + tail);
      ScalarInverse(vs[0], tail);
      ItemsInverse(vs[1..], rest);
      assert [vs[0]] + vs[1..] == vs;
    }
  }

  lemma {:induction false} FieldsInverse(es: seq<Entry<Str, Scalar>>, rest: seq<Byte>)
    requires forall i :: 0 <= i < |es| ==> FieldOk(es[i])
    ensures ParseFields(EncodeFields(es) + [TABLE_END] + rest) == Some((es, rest))
  {
    hide EncodeScalar, ParseScalar, ScalarOk, EncodeString, ParseString;
    if es == [] {
      assert [] + [TABLE_END] + rest == [TABLE_END] + rest;
    } else {
      var e, tail := es[0], EncodeFields(es[1..]) + [TABLE_END] + rest;
      var s := EncodeFields(es) + [TABLE_END] + rest;
      assert s == [ScalarType(e.value)] + (EncodeString(e.key) + (EncodeScalar(e.value) + tail));
      StringInverse(e.key, EncodeScalar(e.value) + tail);
      ScalarInverse(e.value, tail);
      FieldsInverse(es[1..], rest);
      assert [e] + es[1..] == es;
    }
  }

  lemma CountInverse(n: nat, rest: seq<Byte>)
    requires n < Pow256(8)
    ensures ParseCount(LittleEndian(n, 8) + rest) == Some((n, rest))
  {
    hide Pow256, LittleEndian, FromLittleEndian;
    LittleEndianInverse(n, 8);
    var s := LittleEndian(n, 8) + rest;
    assert s[..8] == LittleEndian(n, 8) && s[8..] == rest;
  }

  lemma BodyInverse(v: Value, rest: seq<Byte>)
    requires ValueOk(v)
    ensures ParseBody(ValueType(v), EncodeBody(v) + rest) == Some((Decode(v), rest))
  {
    hide EncodeScalar, ParseScalar, ScalarOk, ParseCount, ParseFields, ParseItems, Pow256, LittleEndian, EncodeFields,
      EncodeItems, Listed;
    match v
    case Single(s) =>
      ScalarInverse(s, rest);
    case Table(slots) =>
      var tail := EncodeFields(Listed(slots)) + [TABLE_END] + rest;
      assert EncodeBody(v) + rest == LittleEndian(|slots|, 8) + tail;
      CountInverse(|slots|, tail);
      FieldsInverse(Listed(slots), rest);
    case List(items) =>
      assert EncodeBody(v) + rest == LittleEndian(|items|, 8) + (EncodeItems(items) + rest);
      CountInverse(|items|, EncodeItems(items) + rest);
      ItemsInverse(items, rest);
  }

  lemma PairInverse(e: Entry<Str, Value>, rest: seq<Byte>)
    requires PairOk(e)
    ensures ParsePair(EncodePair(e) + rest) == Some((DecodePair(e), rest))
  {
    hide EncodeBody, ParseBody, EncodeString, ParseString, ValueOk, Decode, ValueType;
    var tail := [ValueType(e.value)] + (EncodeBody(e.value) + rest);
    assert EncodePair(e) + rest == EncodeString(e.key) + tail;
    StringInverse(e.key, tail);
    assert tail[1..] == EncodeBody(e.value) + rest;
    BodyInverse(e.value, rest);
  }

  function DecodePairs(es: seq<Entry<Str, Value>>): (ds: seq<Entry<Str, Decoded>>)
    ensures |ds| == |es| && forall i :: 0 <= i < |es| ==> ds[i] == DecodePair(es[i])
  {
    if es == [] then [] else [DecodePair(es[0])] + DecodePairs(es[1..])
  }

  lemma {:induction false} PairsInverse(es: seq<Entry<Str, Value>>, rest: seq<Byte>)
    requires forall i :: 0 <= i < |es| ==> PairOk(es[i])
    ensures ParsePairs(|es|, EncodePairs(es) + rest) == Some((DecodePairs(es), rest))
  {
    hide EncodePair, ParsePair, PairOk, DecodePair;
    if es == [] {
      assert [] + rest == rest;
    } else {
      var tail := EncodePairs(es[1..]) + rest;
      assert EncodePairs(es) + rest == EncodePair(es[0]) + tail;
      PairInverse(es[0], tail);
      PairsInverse(es[1..], rest);
    }
  }

  // --------------------------------------------------------------- databases

  /** A database as it is saved: its name and the slots of its table. */
  datatype Database = Database(name: Str, slots: Slots<Str, Value>)

  datatype DecodedDatabase = DecodedDatabase(name: Str, pairs: seq<Entry<Str, Decoded>>)

  ghost predicate DatabaseOk(d: Database) {
    && |d.name| < STRING_LIMIT && UniqueKeys(d.slots) && |Listed(d.slots)| < Pow256(8)
    && forall i :: 0 <= i < |Listed(d.slots)| ==> PairOk(Listed(d.slots)[i])
  }

  /** The number of pairs and the name. */
  function DatabaseHeader(d: Database): seq<Byte> {
    LittleEndian(|Listed(d.slots)|, 8) + EncodeString(d.name)
  }

  function EncodeDatabase(d: Database): seq<Byte>
    requires DatabaseOk(d)
  {
    DatabaseHeader(d) + EncodePairs(Listed(d.slots))
  }

  function EncodeDatabases(ds: seq<Database>): seq<Byte>
    requires forall i :: 0 <= i < |ds| ==> DatabaseOk(ds[i])
  {
    if ds == [] then [] else EncodeDatabase(ds[0]) + EncodeDatabases(ds[1..])
  }

  function ParseDatabase(s: seq<Byte>): Parse<DecodedDatabase> {
    match ParseCount(s)
    case None => None
    case Some((count, rest)) =>
      match ParseString(rest)
      case None => None
      case Some((name, rest')) =>
        match ParsePairs(count, rest')
        case None => None
        case Some((pairs, rest'')) => Some((DecodedDatabase(name, pairs), rest''))
  }

  lemma {:induction false} ItemsShrink(n: nat, s: seq<Byte>)
    ensures ParseItems(n, s).Some? ==> |ParseItems(n, s).value.1| <= |s|
  {
    if n > 0 && s != [] {
      ScalarShrinks(s[0], s[1..]);
      var r := ParseScalar(s[0], s[1..]);
      if r.Some? { ItemsShrink(n - 1, r.value.1); }
    }
  }

  lemma {:induction false} FieldsShrink(s: seq<Byte>)
    ensures ParseFields(s).Some? ==> |ParseFields(s).value.1| <= |s|
    decreases |s|
  {
    if s != [] && s[0] != TABLE_END {
      ParseShrinks(s[1..]);
      var r := ParseString(s[1..]);
      if r.Some? {
        ScalarShrinks(s[0], r.value.1);
        var v := ParseScalar(s[0], r.value.1);
        if v.Some? { FieldsShrink(v.value.1); }
      }
    }
  }

  lemma BodyShrinks(kind: Byte, s: seq<Byte>)
    ensures ParseBody(kind, s).Some? ==> |ParseBody(kind, s).value.1| <= |s|
  {
    hide ParseItems, ParseFields, ParseScalar;
    ScalarShrinks(kind, s);
    if ParseCount(s).Some? {
      var (count, rest) := ParseCount(s).value;
      ItemsShrink(count, rest);
      FieldsShrink(rest);
    }
  }

  lemma {:induction false} PairsShrink(n: nat, s: seq<Byte>)
    ensures ParsePairs(n, s).Some? ==> |ParsePairs(n, s).value.1| <= |s|
  {
    hide ParseString, ParseBody;
    if n > 0 {
      ParseShrinks(s);
      var r := ParseString(s);
      if r.Some? && r.value.1 != [] {
        BodyShrinks(r.value.1[0], r.value.1[1..]);
      }
      if ParsePair(s).Some? { PairsShrink(n - 1, ParsePair(s).value.1); }
    }
  }

  lemma DatabaseShrinks(s: seq<Byte>)
    ensures ParseDatabase(s).Some? ==> |ParseDatabase(s).value.1| < |s|
  {
    hide ParseString, ParsePairs;
    if ParseCount(s).Some? {
      var (count, rest) := ParseCount(s).value;
      ParseShrinks(rest);
      if ParseString(rest).Some? { PairsShrink(count, ParseString(rest).value.1); }
    }
  }

  /** Databases up to the end of the bytes. */
  function ParseDatabases(s: seq<Byte>): Option<seq<DecodedDatabase>>
    decreases |s|
  {
    if s == [] then Some([]) else
      DatabaseShrinks(s);
      match ParseDatabase(s)
      case None => None
      case Some((d, rest)) =>
        match ParseDatabases(rest)
        case None => None
        case Some(ds) => Some([d] + ds)
  }

  function DecodeDatabase(d: Database): DecodedDatabase {
    DecodedDatabase(d.name, DecodePairs(Listed(d.slots)))
  }

  lemma DatabaseInverse(d: Database, rest: seq<Byte>)
    requires DatabaseOk(d)
    ensures ParseDatabase(EncodeDatabase(d) + rest) == Some((DecodeDatabase(d), rest))
  {
    hide PairOk, EncodePairs, ParsePairs, EncodeString, ParseString, ParseCount, LittleEndian, Pow256, Listed;
    var es := Listed(d.slots);
    var tail := EncodeString(d.name) + (EncodePairs(es) + rest);
    assert EncodeDatabase(d) + rest == LittleEndian(|es|, 8) + tail;
    CountInverse(|es|, tail);
    StringInverse(d.name, EncodePairs(es) + rest);
    PairsInverse(es, rest);
  }

  function DecodeDatabases(ds: seq<Database>): (r: seq<DecodedDatabase>)
    ensures |r| == |ds| && forall i :: 0 <= i < |ds| ==> r[i] == DecodeDatabase(ds[i])
  {
    if ds == [] then [] else [DecodeDatabase(ds[0])] + DecodeDatabases(ds[1..])
  }

  /** Parsing the stream of any list of databases gives back those databases, in order. */
  lemma {:induction false} DatabasesInverse(ds: seq<Database>)
    requires forall i :: 0 <= i < |ds| ==> DatabaseOk(ds[i])
    ensures ParseDatabases(EncodeDatabases(ds)) == Some(DecodeDatabases(ds))
  {
    hide DatabaseOk, EncodeDatabase, ParseDatabase, DecodeDatabase;
    if ds != [] {
      DatabaseInverse(ds[0], EncodeDatabases(ds[1..]));
      DatabasesInverse(ds[1..]);
      NonEmptyDatabase(ds[0]);
    }
  }

  lemma NonEmptyDatabase(d: Database)
    requires DatabaseOk(d)
    ensures |EncodeDatabase(d)| >= |DatabaseHeader(d)| > 8
  {
  }
}
