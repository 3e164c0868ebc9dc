/** Saving and then loading is the identity on the contents of the databases. */
module Persistence {
  import opened Bytes
  import opened Probing
  import opened StringCodec
  import opened ValueCodec
  import opened Generator
  import opened BlockFiles
  import opened BlockReaders
  import Saver
  import Loader

  /** What a value means to a client: a table is its bindings, wherever they are stored,
      and its allocated size. */
  datatype Meaning =
    | ScalarMeaning(scalar: Scalar)
    | ListMeaning(items: seq<Scalar>)
    | TableMeaning(capacity: nat, bindings: map<Str, Scalar>)

  ghost function MeaningOf(v: Value): Meaning {
    match v
    case Single(s) => ScalarMeaning(s)
    case List(items) => ListMeaning(items)
    case Table(slots) => TableMeaning(|slots|, AsMap(slots))
  }

  ghost function Meanings(m: map<Str, Value>): map<Str, Meaning> {
    map k | k in m :: MeaningOf(m[k])
  }

  /** The key-to-value map of a database. */
  ghost function Contents(d: Database): map<Str, Meaning> {
    Meanings(AsMap(d.slots))
  }

  lemma SameMeanings(m: map<Str, Value>, n: map<Str, Value>)
    requires forall k :: k in m ==> k in n && MeaningOf(n[k]) == MeaningOf(m[k])
    requires forall k :: k in n ==> k in m
    ensures Meanings(n) == Meanings(m)
  {
    hide MeaningOf;
    assert n.Keys == m.Keys;
  }

  /** A nested table reloaded at its saved capacity has not grown and binds the same fields. */
  lemma LoadedValue(v: Value, w: Value)
    requires ValueOk(v) && Loader.Loads(w, Decode(v))
    ensures MeaningOf(w) == MeaningOf(v)
  {
    hide AsMap, Listed, InsertAll;
    if v.Table? { ListedRebuilds(v.slots); }
  }

  lemma LoadedDatabase(d: Database, l: Database)
    requires DatabaseOk(d) && Loader.LoadsDatabase(l, DecodeDatabase(d))
    ensures l.name == d.name && Contents(l) == Contents(d)
  {
    hide AsMap, InsertAll, MeaningOf, Loader.Loads, PairOk, Decode, Listed, DecodePairs, Pow256;
    var saved := Listed(d.slots);
    ListedOnce(d.slots);
    var es: seq<Entry<Str, Value>> :| Loader.LoadsAll(es, DecodePairs(saved)) && AsMap(l.slots) == InsertAll(es);
    SameKeys(es, saved);
    InsertAllDistinct(es);
    var m, n := AsMap(d.slots), AsMap(l.slots);
    forall k | k in m ensures k in n && MeaningOf(n[k]) == MeaningOf(m[k]) {
      var i :| 0 <= i < |saved| && saved[i].key == k;
      SameMeaning(es, saved, i);
    }
    forall k | k in n ensures k in m {
      var i :| 0 <= i < |es| && es[i].key == k;
      assert saved[i].key == k;
    }
    SameMeanings(m, n);
  }

  lemma SameKeys(es: seq<Entry<Str, Value>>, saved: seq<Entry<Str, Value>>)
    requires Loader.LoadsAll(es, DecodePairs(saved)) && DistinctKeys(saved)
    ensures |es| == |saved| && DistinctKeys(es) && forall i :: 0 <= i < |es| ==> es[i].key == saved[i].key
  {
    hide Loader.Loads, DecodePairs, Decode;
    forall i | 0 <= i < |es| ensures es[i].key == saved[i].key {
      assert DecodePairs(saved)[i] == DecodePair(saved[i]);
    }
  }

  lemma SameMeaning(es: seq<Entry<Str, Value>>, saved: seq<Entry<Str, Value>>, i: nat)
    requires Loader.LoadsAll(es, DecodePairs(saved)) && i < |saved| && PairOk(saved[i])
    ensures i < |es| && es[i].key == saved[i].key && MeaningOf(es[i].value) == MeaningOf(saved[i].value)
  {
    hide MeaningOf, Loader.Loads, ValueOk, Decode, DecodePairs;
    assert DecodePairs(saved)[i] == DecodePair(saved[i]);
    LoadedValue(saved[i].value, es[i].value);
  }

  /** Opens a saved file: reads its first block, checks the magic number and reads the
      databases behind the seven-byte header of a file without passwords. With assertions
      compiled in (`checked`), a file of a block or more ends the process. */
  method LoadData(file: BlockFile, blockSize: nat, checked: bool, hash: Str -> nat)
      returns (loaded: Option<seq<Database>>, count: nat, age: nat)
    requires blockSize > 7 && |file.content| >= 7 && file.content[6] == 0
    requires ParseDatabases(file.content[7..]).Some?
    modifies file`pos
    ensures loaded.Some? <==>
      && file.content[0] == Saver.MAGIC_HIGH && file.content[1] == Saver.MAGIC_LOW
      && (checked ==> |file.content| < blockSize)
    ensures loaded.Some? ==> Loader.LoadsDatabases(loaded.value, ParseDatabases(file.content[7..]).value)
    ensures loaded.Some? ==> count == Loader.PairCount(ParseDatabases(file.content[7..]).value)
    ensures loaded.Some? ==> age == FromLittleEndian(file.content[2..6])
  {
    hide ParseDatabases, Loader.LoadsDatabases, FromLittleEndian;
    file.pos := 0;
    var block := new Byte[blockSize];
    var n := file.ReadBlock(block);
    assert block[0] == block[..n][0] && block[1] == block[..n][1];
    if block[0] != Saver.MAGIC_HIGH || block[1] != Saver.MAGIC_LOW { return None, 0, 0; }
    assert block[2..6] == block[..n][2..6] && file.content[2..6] == file.content[0..n][2..6];
    age := FromLittleEndian(block[2..6]);
    var r := new BlockReader(file, block, 7);
    loaded, count := Loader.ReadFile(r, |file.content|, checked, hash);
  }

  /** The number of keys in all databases. */
  ghost function TotalPairs(ds: seq<Database>): nat {
    if ds == [] then 0 else TotalPairs(ds[..|ds| - 1]) + |AsMap(ds[|ds| - 1].slots)|
  }

  lemma {:induction false} TotalIsPairCount(ds: seq<Database>)
    requires forall i :: 0 <= i < |ds| ==> DatabaseOk(ds[i])
    ensures Loader.PairCount(DecodeDatabases(ds)) == TotalPairs(ds)
  {
    hide AsMap, Listed, DecodePairs, PairOk, Pow256;
    if ds != [] {
      var last := |ds| - 1;
      TotalIsPairCount(ds[..last]);
      PrefixDecodes(ds, last);
      ListedRebuilds(ds[last].slots);
    }
  }

  lemma PrefixDecodes(ds: seq<Database>, n: nat)
    requires n <= |ds|
    ensures DecodeDatabases(ds)[..n] == DecodeDatabases(ds[..n])
  {
    hide DecodeDatabase;
    var a, b := DecodeDatabases(ds)[..n], DecodeDatabases(ds[..n]);
    forall i | 0 <= i < n ensures a[i] == b[i] { }
  }

  /** The whole way round: whatever the block sizes of the two runs, the databases come
      back with the same names, in the same order, with the same contents, if and only if
      every database header fits into its block, no list has a dangling last link, the
      buffer for pairs is large enough and, with assertions compiled in, the stream is
      shorter than a block of the second run. The stream itself must have been saved: its last block must not be exactly full, or be
      what the file held there. */
  method SaveThenLoad(file: BlockFile, capacity: nat, blockSize: nat, checked: bool, age: nat,
      ds: seq<Saver.StoredDatabase>, hash: Str -> nat, ghost lists: Lists)
      returns (loaded: Option<seq<Database>>, count: nat, loadedAge: nat)
    requires capacity >= 7 && blockSize > 7 && Recorded(lists) && Saver.KnownDatabases(ds, lists)
    requires var image := Saver.DatabasesImage(ds, lists);
      && (forall i :: 0 <= i < |ds| ==> DatabaseOk(image[i]))
      && Saver.Saved(file.content, Saver.Stream(age, image), capacity) == Saver.Stream(age, image)
    modifies file
    ensures var image := Saver.DatabasesImage(ds, lists);
      && (loaded.Some? <==>
            && Saver.HeadersFit(image, 7, capacity) && Saver.AllEnded(ds, lists) && Saver.AllSuffice(image)
            && (checked ==> |Saver.Stream(age, image)| < blockSize))
      && (loaded.Some? ==> |loaded.value| == |ds| && count == TotalPairs(image))
      && (loaded.Some? && age < 0x1_0000_0000 ==> loadedAge == age)
      && (loaded.Some? ==> forall i :: 0 <= i < |ds| ==>
            loaded.value[i].name == ds[i].name && Contents(loaded.value[i]) == Contents(image[i]))
  {
    hide DatabaseOk, EncodeDatabases, Saver.Saved, Contents, Saver.Stream, Saver.HeadersFit, Saver.AllEnded, Saver.AllSuffice,
      Saver.SlotsImage;
    ghost var image := Saver.DatabasesImage(ds, lists);
    var done := Saver.SaveData(file, capacity, age, ds, lists);
    if !done { return None, 0, 0; }
    loaded, count, loadedAge := LoadSaved(file, blockSize, checked, age, image, hash);
  }

  /** Loads a file that holds the stream of some databases. */
  method LoadSaved(file: BlockFile, blockSize: nat, checked: bool, age: nat, ghost image: seq<Database>, hash: Str -> nat)
      returns (loaded: Option<seq<Database>>, count: nat, loadedAge: nat)
    requires blockSize > 7 && forall i :: 0 <= i < |image| ==> DatabaseOk(image[i])
    requires file.content == Saver.Stream(age, image)
    modifies file`pos
    ensures loaded.Some? <==> checked ==> |Saver.Stream(age, image)| < blockSize
    ensures loaded.Some? ==> |loaded.value| == |image| && count == TotalPairs(image)
    ensures loaded.Some? && age < 0x1_0000_0000 ==> loadedAge == age
    ensures loaded.Some? ==> forall i :: 0 <= i < |image| ==>
      loaded.value[i].name == image[i].name && Contents(loaded.value[i]) == Contents(image[i])
  {
    hide DatabaseOk, ParseDatabases, EncodeDatabases, Contents, Loader.LoadsDatabase, FromLittleEndian, LittleEndian;
    DatabasesInverse(image);
    assert file.content[7..] == EncodeDatabases(image);
    loaded, count, loadedAge := LoadData(file, blockSize, checked, hash);
    assert file.content[2..6] == Saver.FileHeader(age)[2..6];
    if age < 0x1_0000_0000 { Saver.HeaderLayout(age); }
    if loaded.None? { return; }
    TotalIsPairCount(image);
    forall i | 0 <= i < |image|
      ensures loaded.value[i].name == image[i].name && Contents(loaded.value[i]) == Contents(image[i])
    {
      LoadedDatabase(image[i], loaded.value[i]);
    }
  }

  /** A string of a block or more is saved, but with assertions compiled in its file cannot
      be loaded. */
  method LongStringAborts(file: BlockFile, blockSize: nat, age: nat, key: Str, s: Str, hash: Str -> nat)
      returns (loaded: Option<seq<Database>>)
    requires blockSize > 7 && |key| < STRING_LIMIT && blockSize <= |s| < STRING_LIMIT
    requires (OneStringOk(key, s); file.content == Saver.Stream(age, [OneString(key, s)]))
    modifies file`pos
    ensures loaded.None?
  {
    hide DatabaseOk, EncodeDatabases;
    OneStringOk(key, s);
    OneStringIsLong(key, s);
    var count, loadedAge;
    loaded, count, loadedAge := LoadSaved(file, blockSize, true, age, [OneString(key, s)], hash);
  }

  /** A database without a name that holds one string. */
  function OneString(key: Str, s: Str): Database {
    Database([], [Some(Entry(key, Single(Text(s))))])
  }

  lemma OneStringIsLong(key: Str, s: Str)
    requires DatabaseOk(OneString(key, s))
    ensures |EncodeDatabases([OneString(key, s)])| > |s|
  {
    hide DatabaseHeader;
    var d := OneString(key, s);
    OneStringListed(key, s);
    var e := Entry(key, Single(Text(s)));
    assert Listed(d.slots)[0] == e && PairOk(e);
    assert |EncodePair(e)| > |s|;
    assert EncodePairs([e]) == EncodePair(e) + [];
    assert EncodeDatabases([d]) == EncodeDatabase(d) + [];
  }

  lemma OneStringOk(key: Str, s: Str)
    requires |key| < STRING_LIMIT && |s| < STRING_LIMIT
    ensures DatabaseOk(OneString(key, s))
  {
    OneStringListed(key, s);
    assert 1 < Pow256(8) by { assert Pow256(8) == 256 * Pow256(7); }
    assert PairOk(Entry(key, Single(Text(s))));
  }

  lemma OneStringListed(key: Str, s: Str)
    ensures var e := Entry(key, Single(Text(s))); Listed(OneString(key, s).slots) == [e]
  {
    var slots := OneString(key, s).slots;
    assert slots[..0] == [];
  }
}
