/** Saving all databases: the file header, then for each database its header and its pairs,
    and at the end the last block and the truncation to the size of the stream. */
module Saver {
  import opened Bytes
  import opened Bits
  import opened Probing
  import opened StringCodec
  import opened ValueCodec
  import opened Generator
  import opened SizeEstimate
  import opened BlockFiles
  import opened BlockWriters

  const MAGIC_HIGH: Byte := 0x18
  const MAGIC_LOW: Byte := 0x10

  /** The magic number in network order, the server's age, and no passwords. */
  function FileHeader(age: nat): (s: seq<Byte>)
    ensures |s| == 7
  {
    [MAGIC_HIGH, MAGIC_LOW] + LittleEndian(age, 4) + [0]
  }

  /** The magic number, and an age below 2^32 in the four bytes behind it. */
  lemma HeaderLayout(age: nat)
    requires age < 0x1_0000_0000
    ensures var h := FileHeader(age); h[0] == 0x18 && h[1] == 0x10 && FromLittleEndian(h[2..6]) == age && h[6] == 0
  {
    hide LittleEndian, FromLittleEndian;
    LittleEndianInverse(age, 4);
    assert Pow256(4) == 0x1_0000_0000 by { FourBytes(); }
    assert FileHeader(age)[2..6] == LittleEndian(age, 4);
  }

  lemma FourBytes()
    ensures Pow256(4) == 0x1_0000_0000
  {
  }

  function Stream(age: nat, ds: seq<Database>): seq<Byte>
    requires forall i :: 0 <= i < |ds| ==> DatabaseOk(ds[i])
  {
    FileHeader(age) + EncodeDatabases(ds)
  }

  /** No database header crosses a block boundary, when p bytes come before these databases. */
  ghost predicate HeadersFit(ds: seq<Database>, p: nat, capacity: nat)
    requires p > 0 && capacity > 0 && forall i :: 0 <= i < |ds| ==> DatabaseOk(ds[i])
  {
    ds == [] ||
    (Filled(p, capacity) + |DatabaseHeader(ds[0])| <= capacity
     && HeadersFit(ds[1..], p + |EncodeDatabase(ds[0])|, capacity))
  }

  // ---------------------------------------------------------- databases in memory

  datatype StoredDatabase = StoredDatabase(name: Str, slots: Slots<Str, Stored>)

  ghost predicate KnownSlots(slots: Slots<Str, Stored>, lists: Lists) {
    forall i :: 0 <= i < |slots| && slots[i].Some? ==> Known(slots[i].value.value, lists)
  }

  ghost function SlotsImage(slots: Slots<Str, Stored>, lists: Lists): (image: Slots<Str, Value>)
    requires KnownSlots(slots, lists)
    ensures |image| == |slots|
  {
    seq(|slots|, i requires 0 <= i < |slots| =>
      if slots[i].Some? then Some(PairImage(slots[i].value, lists)) else None)
  }

  ghost function DatabaseImage(d: StoredDatabase, lists: Lists): Database
    requires KnownSlots(d.slots, lists)
  {
    Database(d.name, SlotsImage(d.slots, lists))
  }

  ghost predicate KnownDatabases(ds: seq<StoredDatabase>, lists: Lists) {
    forall i :: 0 <= i < |ds| ==> KnownSlots(ds[i].slots, lists)
  }

  /** The databases with the items of their lists in place of references. */
  ghost function DatabasesImage(ds: seq<StoredDatabase>, lists: Lists): (image: seq<Database>)
    requires KnownDatabases(ds, lists)
    ensures |image| == |ds|
  {
    seq(|ds|, i requires 0 <= i < |ds| => DatabaseImage(ds[i], lists))
  }

  /** Every list in the table ends properly: none had its last node removed without a later
      insertion at the back. */
  ghost predicate SlotsEnded(slots: Slots<Str, Stored>, lists: Lists)
    requires KnownSlots(slots, lists)
  {
    forall i :: 0 <= i < |slots| && slots[i].Some? ==> Ended(slots[i].value.value, lists)
  }

  ghost predicate AllEnded(ds: seq<StoredDatabase>, lists: Lists)
    requires KnownDatabases(ds, lists)
  {
    forall i :: 0 <= i < |ds| ==> SlotsEnded(ds[i].slots, lists)
  }

  /** The buffer for pairs, sized by the server's estimate, is large enough in every database. */
  ghost predicate AllSuffice(ds: seq<Database>) {
    forall i :: 0 <= i < |ds| ==> Suffices(Listed(ds[i].slots))
  }

  // ------------------------------------------------------------------- saving

  /** The pair count and the name, written straight into the block, if they fit: the server
      does not look, and writes past the end of the block if they do not. */
  method SaveHeader(w: BlockWriter, count: nat, name: Str, ghost d: Database) returns (fits: bool)
    requires w.Valid() && DatabaseOk(d) && count == |Listed(d.slots)| && name == d.name
    modifies w, w.block
    ensures fits <==> old(w.blockSize) + |DatabaseHeader(d)| <= w.block.Length
    ensures fits ==> w.Valid() && w.Output() == old(w.Output()) + DatabaseHeader(d)
  {
    hide LittleEndian, EncodeString, DatabaseOk, Aligned, From, Listed;
    if w.blockSize + 8 + |EncodeString(name)| > w.block.Length { return false; }
    ghost var before := w.block[..w.blockSize];
    w.blockSize := Append(w.block, w.blockSize, LittleEndian(count, 8));
    var written;
    w.blockSize, written := GenerateString(w.block, w.blockSize, name);
    w.size := w.size + written + 8;
    assert before + LittleEndian(count, 8) + EncodeString(name) == before + DatabaseHeader(d);
    fits := true;
  }

  lemma PairsHead(es: seq<Entry<Str, Value>>)
    requires es != [] && forall i :: 0 <= i < |es| ==> PairOk(es[i])
    ensures EncodePairs(es) == EncodePair(es[0]) + EncodePairs(es[1..])
  {
  }

  /** The walk over the database's table: each pair is encoded into `data`, then dumped. It
      comes to its end if and only if every list does and every pair fits `data`: the server
      does not look, and writes past the end of the buffer if one does not. */
  method SavePairs(w: BlockWriter, slots: Slots<Str, Stored>, data: array<Byte>, ghost lists: Lists) returns (done: bool)
    requires w.Valid() && data != w.block && Recorded(lists) && KnownSlots(slots, lists)
    requires var image := SlotsImage(slots, lists); forall i :: 0 <= i < |Listed(image)| ==> PairOk(Listed(image)[i])
    modifies w, w.file, w.block, data
    ensures done <==> SlotsEnded(slots, lists) && AllFit(Listed(SlotsImage(slots, lists)), data.Length)
    ensures done ==> w.Valid() && w.Output() == old(w.Output()) + EncodePairs(Listed(SlotsImage(slots, lists)))
  {
    hide PairOk, EncodePair, EncodePairs, Listed, Aligned, From, Recorded, PairImage, Ended, OfPair, Total;
    ghost var image := SlotsImage(slots, lists);
    ghost var before, all, left := w.Output(), Listed(image), Listed(image);
    ghost var out: seq<Byte>, seen := [], [];
    NoPairs(image);
    for i := 0 to |slots|
      invariant w.Valid() && Recorded(lists) && left == Listed(image[i..]) && all == seen + left
      invariant forall j :: 0 <= j < i && slots[j].Some? ==> Ended(slots[j].value.value, lists)
      invariant AllFit(seen, data.Length) && forall j :: 0 <= j < |left| ==> PairOk(left[j])
      invariant EncodePairs(all) == out + EncodePairs(left)
      invariant w.Output() == before + out
    {
      ListedStep(image, i);
      if slots[i].Some? {
        ghost var e := image[i].value;
        assert left[0] == e && left[1..] == Listed(image[i + 1..]) && all[|seen|] == e;
        PairsHead(left);
        var kvSize := EncodeOne(data, slots[i].value, lists);
        if kvSize.None? { return false; }
        w.Dump(data, kvSize.value);
        assert out + (EncodePair(e) + EncodePairs(left[1..])) == out + EncodePair(e) + EncodePairs(left[1..]);
        assert before + out + EncodePair(e) == before + (out + EncodePair(e));
        out, seen, left := out + EncodePair(e), seen + [e], left[1..];
      }
    }
    NoPairs(image);
    assert out + [] == out && seen == all;
    done := true;
  }

  /** Encodes one pair, if it fits and its list ends. */
  method EncodeOne(data: array<Byte>, e: Entry<Str, Stored>, ghost lists: Lists) returns (len: Option<nat>)
    requires Recorded(lists) && Known(e.value, lists) && PairOk(PairImage(e, lists))
    modifies data
    ensures len.Some? <==> Ended(e.value, lists) && Total(OfPair(PairImage(e, lists))) <= data.Length
    ensures len.Some? ==> 0 < len.value == |EncodePair(PairImage(e, lists))| <= data.Length
    ensures len.Some? ==> data[..len.value] == EncodePair(PairImage(e, lists))
  {
    hide EncodePair, PairOk, PairImage, OfPair, Recorded, Ended;
    PairTakes(PairImage(e, lists));
    var m := MeasurePair(e, lists);
    if m.None? || Total(m.value) > data.Length { return None; }
    len := GenerateValue(data, e, lists);
  }

  /** The walk that sizes the buffer for the pairs of a table. */
  method MeasureSlots(slots: Slots<Str, Stored>, ghost lists: Lists) returns (room: Option<nat>)
    requires Recorded(lists) && KnownSlots(slots, lists)
    ensures room.Some? <==> SlotsEnded(slots, lists)
    ensures room.Some? ==> room.value == RoomFor(Listed(SlotsImage(slots, lists)))
  {
    hide Listed, OfPair, PairImage, Ended, Recorded, RoomFor;
    ghost var image := SlotsImage(slots, lists);
    var max := 0;
    NoRoom(image);
    for i := 0 to |slots|
      invariant forall j :: 0 <= j < i && slots[j].Some? ==> Ended(slots[j].value.value, lists)
      invariant max == RoomFor(Listed(image[..i]))
    {
      ListedStep(image, i);
      if slots[i].Some? {
        var m := MeasurePair(slots[i].value, lists);
        if m.None? { return None; }
        RoomStep(Listed(image[..i]), image[i].value);
        if m.value.size > max { max := m.value.size; }
      } else {
        assert Listed(image[..i + 1]) == Listed(image[..i]);
      }
    }
    assert image[..|slots|] == image;
    room := Some(max);
  }

  lemma NoRoom(slots: Slots<Str, Value>)
    ensures RoomFor(Listed(slots[..0])) == 0
  {
  }

  lemma RoomStep(es: seq<Entry<Str, Value>>, e: Entry<Str, Value>)
    ensures RoomFor(es + [e]) == if RoomFor(es) > OfPair(e).size then RoomFor(es) else OfPair(e).size
  {
    hide OfPair;
    assert (es + [e])[..|es|] == es;
  }

  lemma NoPairs(slots: Slots<Str, Value>)
    ensures EncodePairs([]) == [] && slots[0..] == slots && Listed(slots[|slots|..]) == []
  {
  }

  /** A walk lists as many entries whether lists are references or not. */
  lemma {:induction false} ListedCount(slots: Slots<Str, Stored>, lists: Lists)
    requires KnownSlots(slots, lists)
    ensures |Listed(SlotsImage(slots, lists))| == |Listed(slots)|
  {
    if slots != [] {
      var n := |slots| - 1;
      ListedCount(slots[..n], lists);
      assert SlotsImage(slots, lists)[..n] == SlotsImage(slots[..n], lists);
    }
  }

  /** The database's header and pairs: done if and only if the header fits the block, every
      list ends and the buffer for pairs is large enough. */
  method SaveDatabase(w: BlockWriter, d: StoredDatabase, ghost lists: Lists) returns (done: bool)
    requires w.Valid() && Recorded(lists) && KnownSlots(d.slots, lists) && DatabaseOk(DatabaseImage(d, lists))
    modifies w, w.file, w.block
    ensures done <==>
      && old(w.blockSize) + |DatabaseHeader(DatabaseImage(d, lists))| <= w.block.Length
      && SlotsEnded(d.slots, lists) && Suffices(Listed(DatabaseImage(d, lists).slots))
    ensures done ==> w.Valid() && w.Output() == old(w.Output()) + EncodeDatabase(DatabaseImage(d, lists))
  {
    hide Listed, EncodePairs, PairOk, Aligned, From, DatabaseHeader, SlotsImage, Recorded, SlotsEnded, AllFit, RoomFor;
    ghost var before, image := w.Output(), DatabaseImage(d, lists);
    ListedCount(d.slots, lists);
    done := SaveHeader(w, |Listed(d.slots)|, d.name, image);
    if !done { return; }
    var room := MeasureSlots(d.slots, lists);
    if room.None? { return false; }
    var data := new Byte[room.value];
    done := SavePairs(w, d.slots, data, lists);
    assert before + DatabaseHeader(image) + EncodePairs(Listed(image.slots)) == before + EncodeDatabase(image);
  }

  /** Saves every database. It comes to its end if and only if every database header fits
      into the block it starts in, every list ends properly and the buffer for pairs is large
      enough. The file then holds the stream, except that a last block that is exactly full
      is never written: there the file keeps what it held before. */
  method SaveData(file: BlockFile, capacity: nat, age: nat, ds: seq<StoredDatabase>, ghost lists: Lists) returns (done: bool)
    requires capacity >= 7 && Recorded(lists) && KnownDatabases(ds, lists)
    requires var image := DatabasesImage(ds, lists); forall i :: 0 <= i < |ds| ==> DatabaseOk(image[i])
    modifies file
    ensures var image := DatabasesImage(ds, lists);
      done <==> HeadersFit(image, 7, capacity) && AllEnded(ds, lists) && AllSuffice(image)
    ensures done ==> file.content == Saved(old(file.content), Stream(age, DatabasesImage(ds, lists)), capacity)
  {
    hide DatabaseOk, EncodeDatabases, DatabaseHeader, Window, Aligned, From, Filled, HeadersFit, Recorded, AllEnded,
      AllSuffice;
    file.Seek();
    var block := new Byte[capacity](_ => 0);
    var blockSize := Append(block, 0, FileHeader(age));
    var w := new BlockWriter(file, block, blockSize);
    assert w.Output() == FileHeader(age);
    done := SaveDatabases(w, ds, lists);
    if done { Finish(w); }
  }

  method SaveDatabases(w: BlockWriter, ds: seq<StoredDatabase>, ghost lists: Lists) returns (done: bool)
    requires w.Valid() && Recorded(lists) && KnownDatabases(ds, lists)
    requires var image := DatabasesImage(ds, lists); forall i :: 0 <= i < |ds| ==> DatabaseOk(image[i])
    modifies w, w.file, w.block
    ensures var image := DatabasesImage(ds, lists);
      done <==> HeadersFit(image, old(w.size), w.block.Length) && AllEnded(ds, lists) && AllSuffice(image)
    ensures done ==> w.Valid() && w.Output() == old(w.Output()) + EncodeDatabases(DatabasesImage(ds, lists))
  {
    hide DatabaseOk, EncodeDatabase, EncodeDatabases, DatabaseHeader, Aligned, From, Filled, HeadersFit, Recorded,
      SlotsEnded, Suffices, SlotsImage, Listed;
    ghost var before, image := w.Output(), DatabasesImage(ds, lists);
    ghost var out: seq<Byte> := [];
    assert image[0..] == image;
    for i := 0 to |ds|
      invariant w.Valid() && Recorded(lists) && w.Output() == before + out
      invariant EncodeDatabases(image) == out + EncodeDatabases(image[i..])
      invariant forall j :: 0 <= j < i ==> SlotsEnded(ds[j].slots, lists) && Suffices(Listed(image[j].slots))
      invariant HeadersFit(image, old(w.size), w.block.Length) <==> HeadersFit(image[i..], w.size, w.block.Length)
    {
      w.SizeFilled();
      DatabasesHead(image, i, w.size, w.block.Length);
      ghost var e, rest := EncodeDatabase(image[i]), EncodeDatabases(image[i + 1..]);
      done := SaveDatabase(w, ds[i], lists);
      if !done { return; }
      assert out + (e + rest) == out + e + rest;
      assert before + out + e == before + (out + e);
      out := out + e;
    }
    DatabasesEnd(image, w.size, w.block.Length);
    assert out == EncodeDatabases(image);
    done := true;
  }

  /** The header of a database without a name does not fit a block of ten bytes behind the
      file's header. */
  lemma HeaderOverruns()
    ensures DatabaseOk(Database([], [])) && !HeadersFit([Database([], [])], 7, 10)
  {
    assert 0 < Pow256(8);
  }

  lemma DatabasesHead(ds: seq<Database>, i: nat, p: nat, capacity: nat)
    requires i < |ds| && p > 0 && capacity > 0 && forall i :: 0 <= i < |ds| ==> DatabaseOk(ds[i])
    ensures EncodeDatabases(ds[i..]) == EncodeDatabase(ds[i]) + EncodeDatabases(ds[i + 1..])
    ensures HeadersFit(ds[i..], p, capacity) <==>
      Filled(p, capacity) + |DatabaseHeader(ds[i])| <= capacity
      && HeadersFit(ds[i + 1..], p + |EncodeDatabase(ds[i])|, capacity)
  {
    hide DatabaseOk, EncodeDatabase, DatabaseHeader, Filled;
    var t := ds[i..];
    assert t[0] == ds[i] && t[1..] == ds[i + 1..];
  }

  lemma DatabasesEnd(ds: seq<Database>, p: nat, capacity: nat)
    requires p > 0 && capacity > 0
    ensures EncodeDatabases(ds[|ds|..]) == [] && HeadersFit(ds[|ds|..], p, capacity)
  {
  }

  /** What the file holds after saving stream s over the old content. */
  ghost function Saved(original: seq<Byte>, s: seq<Byte>, capacity: nat): (c: seq<Byte>)
    requires |s| > 0 && capacity > 0
    ensures |c| == |s|
  {
    if Filled(|s|, capacity) != capacity || |s| < capacity then s
    else s[..|s| - capacity] + Window(original, |s| - capacity, capacity)
  }

  /** If the first block of the stream is written, the file starts with the magic number, the
      age and a zero for the passwords. */
  lemma SavedHeader(original: seq<Byte>, age: nat, ds: seq<Database>, capacity: nat)
    requires capacity >= 7 && age < 0x1_0000_0000 && forall i :: 0 <= i < |ds| ==> DatabaseOk(ds[i])
    requires |Stream(age, ds)| != capacity || Saved(original, Stream(age, ds), capacity) == Stream(age, ds)
    ensures var c := Saved(original, Stream(age, ds), capacity);
      && |c| >= 7 && c[0] == 0x18 && c[1] == 0x10 && FromLittleEndian(c[2..6]) == age && c[6] == 0
  {
    hide Window, EncodeDatabases, FromLittleEndian, FileHeader, DatabaseOk;
    var s := Stream(age, ds);
    var c := Saved(original, s, capacity);
    HeaderLayout(age);
    if c != s { WholeBlocks(|s|, capacity); }
    assert c[..7] == FileHeader(age);
    assert c[2..6] == c[..7][2..6];
    assert c[0] == c[..7][0] && c[1] == c[..7][1] && c[6] == c[..7][6];
  }

  lemma WholeBlocks(n: nat, capacity: nat)
    requires n > 0 && capacity > 0 && Filled(n, capacity) == capacity && n != capacity
    ensures n >= 2 * capacity
  {
    var q := (n - 1) / capacity;
    assert n - 1 == q * capacity + (capacity - 1);
    if q >= 1 { MulAtLeast(q, capacity); }
  }

  /** Saving succeeds exactly when the last block is not full, or happens to equal what
      the file held there before. */
  lemma SavedIsStream(original: seq<Byte>, s: seq<Byte>, capacity: nat)
    requires |s| > 0 && capacity > 0
    ensures Saved(original, s, capacity) == s <==>
      Filled(|s|, capacity) != capacity || |s| < capacity
      || Window(original, |s| - capacity, capacity) == s[|s| - capacity..]
  {
    hide Window, Filled;
    if |s| >= capacity {
      var n := |s| - capacity;
      assert s == s[..n] + s[n..];
      var c := s[..n] + Window(original, n, capacity);
      assert c[n..] == Window(original, n, capacity);
    }
  }

  /** So a new file loses a last block that is exactly full and does not end in a zero byte. */
  lemma FullBlockLost(s: seq<Byte>, capacity: nat)
    requires |s| >= capacity > 0 && Filled(|s|, capacity) == capacity && s[|s| - 1] != 0
    ensures Saved([], s, capacity) != s
  {
    hide Filled;
    SavedIsStream([], s, capacity);
    var n := |s| - capacity;
    assert s[n..][capacity - 1] == s[|s| - 1];
    var w := Window([], n, capacity);
    assert w[capacity - 1] == ByteAt([], n + capacity - 1);
  }

  /** The final write, skipped when the block is full, and the truncation. */
  method Finish(w: BlockWriter)
    requires w.Valid()
    modifies w.file
    ensures w.file.content == Saved(w.original, old(w.Output()), w.block.Length)
  {
    hide Aligned, Window, Filled;
    ghost var out, pos := w.Output(), w.file.pos;
    w.SizeFilled();
    if w.blockSize != w.block.Length {
      w.file.WriteBlock(w.block);
      TruncateInside(w.file.content, w.size);
      assert w.file.content[..w.size] == w.file.content[..w.file.pos][..w.size];
    } else {
      TruncateBeyond(w.file.content, w.original, pos, w.block.Length);
      assert out[..pos] == w.file.content[..pos];
    }
    w.file.Truncate(w.size);
  }

  lemma TruncateInside(content: seq<Byte>, size: nat)
    requires size <= |content|
    ensures Window(content, 0, size) == content[..size]
  {
    WindowInside(content, 0, size);
  }

  /** Extending a file keeps its blocks, and what follows them is what was there before. */
  lemma TruncateBeyond(content: seq<Byte>, original: seq<Byte>, pos: nat, n: nat)
    requires pos <= |content| && content[pos..] == From(original, pos)
    ensures Window(content, 0, pos + n) == content[..pos] + Window(original, pos, n)
  {
    WindowSplit(content, 0, pos, n);
    WindowInside(content, 0, pos);
    ghost var tail := content[pos..];
    assert |content| == pos + |tail|;
    forall q | pos <= q < pos + n ensures ByteAt(content, q) == ByteAt(original, q) {
      if q < |content| { assert tail[q - pos] == content[q] && tail[q - pos] == original[pos..][q - pos]; }
    }
    SameWindow(content, original, pos, n);
  }

  lemma SameWindow(a: seq<Byte>, b: seq<Byte>, p: nat, n: nat)
    requires forall q :: p <= q < p + n ==> ByteAt(a, q) == ByteAt(b, q)
    ensures Window(a, p, n) == Window(b, p, n)
  {
    var v, w := Window(a, p, n), Window(b, p, n);
    forall i | 0 <= i < n ensures v[i] == w[i] {
      assert ByteAt(a, p + i) == ByteAt(b, p + i);
    }
  }
}
