/** Loading the databases: the decoder reads the stream through the block reader, builds
    tables by insertion, and counts the bytes it has consumed to know where to stop. */
module Loader {
  import opened Bytes
  import opened Bits
  import opened Number
  import opened Probing
  import opened HashTables
  import opened StringCodec
  import opened IntegerCodec
  import opened ValueCodec
  import opened BlockFiles
  import opened BlockReaders

  /** The cursor is not past the end of the file. */
  ghost predicate Ready(r: BlockReader)
    reads r, r.file, r.block
  {
    r.Valid() && r.Position() <= |r.file.content|
  }

  /** What is left of the file. */
  ghost function Rest(r: BlockReader): seq<Byte>
    requires Ready(r)
    reads r, r.file, r.block
  {
    r.file.content[r.Position()..]
  }

  /** Takes bytes that are there. */
  method Take(r: BlockReader, count: nat) returns (data: seq<Byte>)
    requires Ready(r) && count <= |Rest(r)|
    modifies r, r.file`pos, r.block
    ensures Ready(r) && data == old(Rest(r))[..count] && Rest(r) == old(Rest(r))[count..]
  {
    ghost var rest := Rest(r);
    data := r.CollectBytes(count);
    assert forall i :: 0 <= i < count ==> data[i] == rest[i];
  }

  method CollectString(r: BlockReader) returns (s: Str, used: nat)
    requires Ready(r) && ParseString(Rest(r)).Some?
    modifies r, r.file`pos, r.block
    ensures Ready(r) && Some((s, Rest(r))) == ParseString(old(Rest(r)))
    ensures used == |old(Rest(r))| - |Rest(r)|
  {
    hide BitOr, BitAnd, FromLittleEndian, Rest;
    ghost var all := Rest(r);
    var first := Take(r, 1);
    var byteCount := first[0] / 64;
    var high := Take(r, byteCount);
    assert all[1..][..byteCount] == all[1..1 + byteCount] && all[1..][byteCount..] == all[1 + byteCount..];
    var length := BitOr(FromLittleEndian(high) * 64, BitAnd(first[0], 63));
    s := Take(r, length);
    used := 1 + byteCount + length;
  }

  method CollectInteger(r: BlockReader) returns (n: int, used: nat)
    requires Ready(r) && ParseInteger(Rest(r)).Some?
    modifies r, r.file`pos, r.block
    ensures Ready(r) && Some((n, Rest(r))) == ParseInteger(old(Rest(r)))
    ensures used == |old(Rest(r))| - |Rest(r)|
  {
    hide BitOr, BitAnd, BigValue, Rest;
    ghost var all := Rest(r);
    var specifier := Take(r, 1);
    var byteCount := BitAnd(specifier[0], 127) + 1;
    SevenBits(specifier[0]);
    var negative := specifier[0] >= 128;
    var data := Take(r, byteCount);
    assert all[1..][..byteCount] == all[1..1 + byteCount] && all[1..][byteCount..] == all[1 + byteCount..];
    n := FoldBytes(data);
    if negative { n := -n; }
    used := 1 + byteCount;
  }

  lemma SevenBits(b: nat)
    ensures BitAnd(b, 127) == b % 128
  {
    assert Pow2(7) == 128;
    AndMask(b, 7);
  }

  /** A value of one of the primitive types; `used` counts its bytes, not the type byte. */
  method CollectScalar(r: BlockReader, kind: Byte) returns (v: Scalar, used: nat)
    requires Ready(r) && ParseScalar(kind, Rest(r)).Some?
    modifies r, r.file`pos, r.block
    ensures Ready(r) && Some((v, Rest(r))) == ParseScalar(kind, old(Rest(r)))
    ensures used == |old(Rest(r))| - |Rest(r)|
  {
    hide Rest, ParseInteger, ParseString;
    if kind == TYPE_INTEGER {
      var n;
      n, used := CollectInteger(r);
      v := Integer(n);
    } else if kind == TYPE_TEXT {
      var s;
      s, used := CollectString(r);
      v := Text(s);
    } else if kind == TYPE_BOOLEAN {
      var b := Take(r, 1);
      v, used := Boolean(b[0] == 1), 1;
    } else {
      v, used := Null, 0;
    }
  }

  method CollectCount(r: BlockReader) returns (n: nat)
    requires Ready(r) && ParseCount(Rest(r)).Some?
    modifies r, r.file`pos, r.block
    ensures Ready(r) && Some((n, Rest(r))) == ParseCount(old(Rest(r)))
    ensures |old(Rest(r))| == |Rest(r)| + 8
  {
    hide Rest, FromLittleEndian;
    var b := Take(r, 8);
    n := FromLittleEndian(b);
  }

  method CollectByte(r: BlockReader) returns (b: Byte)
    requires Ready(r) && Rest(r) != []
    modifies r, r.file`pos, r.block
    ensures Ready(r) && [b] + Rest(r) == old(Rest(r))
  {
    hide Rest;
    var bytes := Take(r, 1);
    b := bytes[0];
  }

  /** The items of a list. The reader counts their type bytes with the list's header. */
  method CollectItems(r: BlockReader, count: nat) returns (items: seq<Scalar>, used: nat)
    requires Ready(r) && ParseItems(count, Rest(r)).Some?
    modifies r, r.file`pos, r.block
    ensures Ready(r) && Some((items, Rest(r))) == ParseItems(count, old(Rest(r)))
    ensures used + count == |old(Rest(r))| - |Rest(r)|
  {
    hide Rest, ParseScalar;
    ghost var all := Rest(r);
    items, used := [], 0;
    assert ParseItems(count, all).value.0 == [] + ParseItems(count, all).value.0;
    for i := 0 to count
      invariant Ready(r) && ParseItems(count - i, Rest(r)).Some?
      invariant used + i == |all| - |Rest(r)|
      invariant ParseItems(count, all).value ==
        (items + ParseItems(count - i, Rest(r)).value.0, ParseItems(count - i, Rest(r)).value.1)
    {
      ghost var before := Rest(r);
      var kind := CollectByte(r);
      assert before[0] == kind && before[1..] == Rest(r);
      var v, n := CollectScalar(r, kind);
      used := used + n;
      ghost var later := ParseItems(count - i - 1, Rest(r)).value.0;
      assert items + ([v] + later) == items + [v] + later;
      items := items + [v];
    }
    assert items + [] == items;
  }

  lemma FieldsEnd(s: seq<Byte>)
    requires ParseFields(s).Some?
    ensures s != []
    ensures s[0] == TABLE_END ==> ParseFields(s) == Some(([], s[1..]))
  {
  }

  /** The rest of a field, after its type byte. */
  method CollectField(r: BlockReader, kind: Byte, ghost before: seq<Byte>)
      returns (e: Entry<Str, Scalar>, used: nat)
    requires Ready(r) && before == [kind] + Rest(r) && ParseFields(before).Some? && kind != TABLE_END
    modifies r, r.file`pos, r.block
    ensures Ready(r) && ParseFields(Rest(r)).Some? && used == |before| - 1 - |Rest(r)|
    ensures ParseFields(before).value == ([e] + ParseFields(Rest(r)).value.0, ParseFields(Rest(r)).value.1)
  {
    hide Rest, ParseScalar, ParseString;
    assert before[1..] == Rest(r);
    var name, n := CollectString(r);
    var v, m := CollectScalar(r, kind);
    e, used := Entry(name, v), n + m;
  }

  lemma EmptyInsertAll()
    ensures InsertAll<Str, Scalar>([]) == map[] && InsertAll<Str, Value>([]) == map[]
  {
  }

  /** One insertion, in terms of the list of entries inserted so far. */
  method InsertNext<V>(table: HashTable<Str, V>, e: Entry<Str, V>, ghost done: seq<Entry<Str, V>>)
    requires table.Valid() && table.Contents() == InsertAll(done) && table.count <= |done|
    modifies table, table.elements
    ensures table.Valid() && table.Contents() == InsertAll(done + [e]) && table.count <= |done| + 1
    ensures table.elements == old(table.elements) || fresh(table.elements)
    ensures 4 * |done| < 3 * old(table.elements.Length) ==> table.elements.Length == old(table.elements.Length)
  {
    hide WellFormed, AsMap;
    InsertAllSnoc(done, e);
    var index := table.Insert(e.key, e.value);
  }

  /** The fields of a hash table, inserted one by one, up to and without the end mark's
      own count, which the reader adds with the table's header. */
  method CollectFields(r: BlockReader, table: HashTable<Str, Scalar>) returns (used: nat)
    requires Ready(r) && ParseFields(Rest(r)).Some? && table.Valid() && table.Contents() == map[] && table.count == 0
    requires {r, r.file, r.block} !! {table, table.elements}
    modifies r, r.file`pos, r.block, table, table.elements
    ensures Ready(r) && table.Valid()
    ensures Rest(r) == ParseFields(old(Rest(r))).value.1
    ensures used + 1 == |old(Rest(r))| - |Rest(r)|
    ensures var fields := ParseFields(old(Rest(r))).value.0;
      && table.Contents() == InsertAll(fields)
      && (4 * |fields| < 3 * old(table.elements.Length) + 4 ==> table.elements.Length == old(table.elements.Length))
  {
    hide Rest, ParseFields, WellFormed, AsMap, InsertAll, Ready, HashTable.Valid;
    EmptyInsertAll();
    ghost var all, capacity := Rest(r), table.elements.Length;
    ghost var fields := ParseFields(all).value.0;
    ghost var done: seq<Entry<Str, Scalar>> := [];
    used := 0;
    while true
      invariant Ready(r) && table.Valid() && ParseFields(Rest(r)).Some?
      invariant table.elements == old(table.elements) || fresh(table.elements)
      invariant used == |all| - |Rest(r)|
      invariant fields == done + ParseFields(Rest(r)).value.0
      invariant ParseFields(all).value.1 == ParseFields(Rest(r)).value.1
      invariant table.Contents() == InsertAll(done) && table.count <= |done|
      invariant 4 * |fields| < 3 * capacity + 4 ==> table.elements.Length == capacity
      decreases |Rest(r)|
    {
      ghost var before := Rest(r);
      FieldsEnd(before);
      var byte := CollectByte(r);
      assert before[0] == byte && before[1..] == Rest(r);
      if byte == TABLE_END {
        assert fields == done;
        return;
      }
      var field, n := CollectField(r, byte, before);
      used := used + n + 1;
      ghost var later := ParseFields(Rest(r)).value.0;
      assert done + ([field] + later) == done + [field] + later;
      InsertNext(table, field, done);
      done := done + [field];
    }
  }

  // -------------------------------------------------- what a loaded value is

  /** A table loaded from saved fields holds what inserting them one by one gives; if they
      came from a reachable table of the saved capacity, it never had to grow. */
  ghost predicate Loads(v: Value, d: Decoded) {
    match d
    case DSingle(s) => v == Single(s)
    case DList(items) => v == List(items)
    case DTable(capacity, fields) =>
      && v.Table? && UniqueKeys(v.slots) && AsMap(v.slots) == InsertAll(fields)
      && (4 * |fields| < 3 * capacity + 4 ==> |v.slots| == capacity)
  }

  method CollectValue(r: BlockReader, kind: Byte, hash: Str -> nat) returns (v: Value, used: nat)
    requires Ready(r) && ParseBody(kind, Rest(r)).Some?
    modifies r, r.file`pos, r.block
    ensures Ready(r) && Rest(r) == ParseBody(kind, old(Rest(r))).value.1
    ensures Loads(v, ParseBody(kind, old(Rest(r))).value.0)
    ensures used == |old(Rest(r))| - |Rest(r)|
  {
    hide Rest, ParseScalar, ParseFields, ParseItems, ParseCount, AsMap, NoHoles, InsertAll;
    if kind == TYPE_TABLE {
      var capacity := CollectCount(r);
      used := 8 + 1;
      var table := new HashTable(capacity, hash);
      NothingInserted(table);
      var n := CollectFields(r, table);
      used := used + n;
      v := Table(table.elements[..]);
    } else if kind == TYPE_LIST {
      var count := CollectCount(r);
      used := 8 + count;
      var items, n := CollectItems(r, count);
      used := used + n;
      v := List(items);
    } else {
      var s;
      s, used := CollectScalar(r, kind);
      v := Single(s);
    }
  }

  lemma NothingInserted(table: HashTable<Str, Scalar>)
    requires table.Valid() && table.Contents() == map[]
    ensures table.count == 0
  {
  }

  method CollectPair(r: BlockReader, hash: Str -> nat) returns (e: Entry<Str, Value>, used: nat)
    requires Ready(r) && ParsePair(Rest(r)).Some?
    modifies r, r.file`pos, r.block
    ensures Ready(r) && Rest(r) == ParsePair(old(Rest(r))).value.1
    ensures var d := ParsePair(old(Rest(r))).value.0; e.key == d.key && Loads(e.value, d.value)
    ensures used == |old(Rest(r))| - |Rest(r)|
  {
    hide Rest, ParseString, ParseBody, Loads;
    var key, n := CollectString(r);
    used := n + 1;
    ghost var before := Rest(r);
    var kind := CollectByte(r);
    assert before[0] == kind && before[1..] == Rest(r);
    var v, m := CollectValue(r, kind, hash);
    used := used + m;
    e := Entry(key, v);
  }

  ghost predicate LoadsAll(es: seq<Entry<Str, Value>>, ds: seq<Entry<Str, Decoded>>) {
    |es| == |ds| && forall i :: 0 <= i < |es| ==> es[i].key == ds[i].key && Loads(es[i].value, ds[i].value)
  }

  /** The table of a loaded database: its pairs, loaded and inserted in file order. */
  ghost predicate LoadsTable(slots: Slots<Str, Value>, ds: seq<Entry<Str, Decoded>>) {
    UniqueKeys(slots) && exists es :: LoadsAll(es, ds) && AsMap(slots) == InsertAll(es)
  }

  ghost predicate LoadsDatabase(d: Database, decoded: DecodedDatabase) {
    d.name == decoded.name && LoadsTable(d.slots, decoded.pairs)
  }

  const DATABASE_INITIAL_SIZE: nat := 1024

  /** A power of two above the count, at least the initial size. */
  function InitialCapacity(count: nat): (c: nat)
    ensures c > 0
  {
    var needed := Pow2(BitCount(count));
    if needed > DATABASE_INITIAL_SIZE then needed else DATABASE_INITIAL_SIZE
  }

  /** The documented initial size, or the first power of two above the count. */
  lemma InitialCapacityIs(count: nat)
    ensures var c := InitialCapacity(count);
      && IsPow2(c) && c > count && c >= 1024 && (c == 1024 || c <= 2 * count)
  {
    hide Pow2, BitCount;
    BitCountBounds(count);
    assert IsPow2(1024) by { assert 1024 == Pow2(10) by { TenBits(); } }
    assert IsPow2(Pow2(BitCount(count)));
    if count > 0 { Doubled(count); } else { assert Pow2(BitCount(0)) == 1 by { NoBits(); } }
  }

  lemma NoBits()
    ensures Pow2(BitCount(0)) == 1
  {
  }

  lemma TenBits()
    ensures Pow2(10) == 1024
  {
  }

  lemma Doubled(count: nat)
    requires count > 0
    ensures BitCount(count) > 0 && Pow2(BitCount(count)) == 2 * Pow2(BitCount(count) - 1)
  {
  }

  method CollectDatabase(r: BlockReader, hash: Str -> nat) returns (d: Database, count: nat, used: nat)
    requires Ready(r) && ParseDatabase(Rest(r)).Some?
    modifies r, r.file`pos, r.block
    ensures Ready(r) && Rest(r) == ParseDatabase(old(Rest(r))).value.1
    ensures LoadsDatabase(d, ParseDatabase(old(Rest(r))).value.0)
    ensures count == |ParseDatabase(old(Rest(r))).value.0.pairs|
    ensures 4 * count < 3 * InitialCapacity(count) + 4 ==> |d.slots| == InitialCapacity(count)
    ensures used == |old(Rest(r))| - |Rest(r)|
  {
    hide Rest, ParseString, ParsePairs, ParseCount, LoadsTable;
    count := CollectCount(r);
    var name, n := CollectString(r);
    used := n + 8;
    PairsLength(count, Rest(r));
    var slots, m := CollectPairs(r, count, hash);
    used := used + m;
    d := Database(name, slots);
  }

  lemma {:induction false} PairsLength(n: nat, s: seq<Byte>)
    ensures ParsePairs(n, s).Some? ==> |ParsePairs(n, s).value.0| == n
  {
    hide ParsePair;
    if n > 0 && ParsePair(s).Some? { PairsLength(n - 1, ParsePair(s).value.1); }
  }

  /** What is left to parse gives the pairs still to come. */
  ghost predicate PairsAhead(ds: seq<Entry<Str, Decoded>>, n: nat, s: seq<Byte>, all: (seq<Entry<Str, Decoded>>, seq<Byte>)) {
    ParsePairs(n, s).Some? && all == (ds + ParsePairs(n, s).value.0, ParsePairs(n, s).value.1)
  }

  lemma PairsStart(n: nat, s: seq<Byte>)
    requires ParsePairs(n, s).Some?
    ensures PairsAhead([], n, s, ParsePairs(n, s).value)
  {
    assert ParsePairs(n, s).value.0 == [] + ParsePairs(n, s).value.0;
  }

  lemma PairsStep(ds: seq<Entry<Str, Decoded>>, n: nat, s: seq<Byte>, all: (seq<Entry<Str, Decoded>>, seq<Byte>))
    requires PairsAhead(ds, n, s, all)
    ensures n == 0 ==> all == (ds, s)
    ensures n > 0 ==>
      ParsePair(s).Some? && PairsAhead(ds + [ParsePair(s).value.0], n - 1, ParsePair(s).value.1, all)
  {
    hide ParsePair;
    if n > 0 {
      var d := ParsePair(s).value.0;
      var later := ParsePairs(n - 1, ParsePair(s).value.1).value.0;
      assert ds + ([d] + later) == ds + [d] + later;
    } else {
      assert ds + [] == ds;
    }
  }

  method CollectPairs(r: BlockReader, count: nat, hash: Str -> nat) returns (slots: Slots<Str, Value>, used: nat)
    requires Ready(r) && ParsePairs(count, Rest(r)).Some?
    modifies r, r.file`pos, r.block
    ensures Ready(r) && Rest(r) == ParsePairs(count, old(Rest(r))).value.1
    ensures LoadsTable(slots, ParsePairs(count, old(Rest(r))).value.0)
    ensures used == |old(Rest(r))| - |Rest(r)|
    ensures 4 * count < 3 * InitialCapacity(count) + 4 ==> |slots| == InitialCapacity(count)
  {
    hide Rest, ParsePair, ParsePairs, PairsAhead, AsMap, NoHoles, Loads, InitialCapacity, InsertAll, Ready;
    EmptyInsertAll();
    ghost var start, all := |Rest(r)|, ParsePairs(count, Rest(r)).value;
    ghost var es, ds := [], [];
    PairsStart(count, Rest(r));
    var table := new HashTable(InitialCapacity(count), hash);
    used := 0;
    for i := 0 to count
      invariant Ready(r) && table.Valid() && fresh(table) && fresh(table.elements)
      invariant PairsAhead(ds, count - i, Rest(r), all) && used == start - |Rest(r)|
      invariant LoadsAll(es, ds) && table.Contents() == InsertAll(es) && table.count <= |es| == i
      invariant 4 * count < 3 * InitialCapacity(count) + 4 ==> table.elements.Length == InitialCapacity(count)
    {
      PairsStep(ds, count - i, Rest(r), all);
      ghost var d := ParsePair(Rest(r)).value.0;
      var kv, n := CollectPair(r, hash);
      used := used + n;
      InsertNext(table, kv, es);
      es, ds := es + [kv], ds + [d];
    }
    PairsStep(ds, 0, Rest(r), all);
    slots := table.elements[..];
  }

  /** Reads every database; the counts of consumed bytes decide where the file ends. With
      assertions compiled in (`checked`) the process ends before that, with None here, if and
      only if the file fills a block or more: the block its end lies in is never whole. */
  method ReadFile(r: BlockReader, fileSize: nat, checked: bool, hash: Str -> nat)
      returns (loaded: Option<seq<Database>>, loadedCount: nat)
    requires Ready(r) && fileSize == |r.file.content| && r.Position() == r.at
    requires ParseDatabases(Rest(r)).Some?
    modifies r, r.file`pos, r.block
    ensures loaded.Some? <==> checked ==> fileSize < r.block.Length
    ensures loaded.Some? ==> LoadsDatabases(loaded.value, ParseDatabases(old(Rest(r))).value)
    ensures loaded.Some? ==> loadedCount == PairCount(ParseDatabases(old(Rest(r))).value)
    ensures Ready(r) && Rest(r) == []
  {
    hide ParseDatabase, LoadsDatabase, Rest, Ready;
    var all: seq<Database>;
    all, loadedCount := ReadDatabases(r, fileSize, hash);
    AtTheEnd(r);
    loaded := if checked && r.short then None else Some(all);
  }

  /** Once everything is read, an asserted read was short if and only if there was one. */
  lemma AtTheEnd(r: BlockReader)
    requires Ready(r) && Rest(r) == []
    ensures r.short <==> |r.file.content| >= r.block.Length
  {
    RestLength(r);
  }

  method ReadDatabases(r: BlockReader, fileSize: nat, hash: Str -> nat) returns (loaded: seq<Database>, loadedCount: nat)
    requires Ready(r) && fileSize == |r.file.content| && r.Position() == r.at
    requires ParseDatabases(Rest(r)).Some?
    modifies r, r.file`pos, r.block
    ensures LoadsDatabases(loaded, ParseDatabases(old(Rest(r))).value)
    ensures loadedCount == PairCount(ParseDatabases(old(Rest(r))).value)
    ensures Ready(r) && Rest(r) == []
  {
    hide ParseDatabase, LoadsDatabase, Rest, Ready;
    loaded, loadedCount := [], 0;
    RestLength(r);
    if r.at == fileSize { return; }
    ghost var all := ParseDatabases(Rest(r)).value;
    ghost var done: seq<DecodedDatabase> := [];
    var collected := r.at;
    while true
      invariant Ready(r) && ParseDatabases(Rest(r)).Some? && Rest(r) != []
      invariant collected + |Rest(r)| == fileSize
      invariant all == done + ParseDatabases(Rest(r)).value
      invariant LoadsDatabases(loaded, done) && loadedCount == PairCount(done)
      decreases |Rest(r)|
    {
      ghost var d := ParseDatabase(Rest(r)).value.0;
      DatabaseShrinks(Rest(r));
      var database, dataCount, used := CollectDatabase(r, hash);
      collected := collected + used;
      loadedCount := loadedCount + dataCount;
      ghost var later := ParseDatabases(Rest(r)).value;
      assert done + ([d] + later) == done + [d] + later;
      PairCountSnoc(done, d);
      loaded, done := loaded + [database], done + [d];
      if collected == fileSize { break; }
    }
    assert all == done;
  }

  lemma RestLength(r: BlockReader)
    requires Ready(r)
    ensures |Rest(r)| == |r.file.content| - r.Position()
  {
  }

  ghost predicate LoadsDatabases(ds: seq<Database>, decoded: seq<DecodedDatabase>) {
    |ds| == |decoded| && forall i :: 0 <= i < |ds| ==> LoadsDatabase(ds[i], decoded[i])
  }

  function PairCount(ds: seq<DecodedDatabase>): nat {
    if ds == [] then 0 else PairCount(ds[..|ds| - 1]) + |ds[|ds| - 1].pairs|
  }

  lemma PairCountSnoc(ds: seq<DecodedDatabase>, d: DecodedDatabase)
    ensures PairCount(ds + [d]) == PairCount(ds) + |d.pairs|
  {
    assert (ds + [d])[..|ds|] == ds;
  }
}
