/** The estimate by which the server sizes the buffer a pair is encoded into, and how far it
    falls short of what the encoder writes: by one byte for each string of certain lengths. */
module SizeEstimate {
  import opened Bytes
  import opened Bits
  import opened Number
  import opened Probing
  import opened StringCodec
  import opened IntegerCodec
  import opened ValueCodec
  import opened LinkedLists
  import opened Generator

  /** What a value is estimated to take, and how many bytes more it does take. */
  datatype Measure = Measure(size: nat, missing: nat)

  function Plus(a: Measure, b: Measure): Measure {
    Measure(a.size + b.size, a.missing + b.missing)
  }

  /** The lengths for which the specifier takes a byte more than the length itself. */
  predicate IsShort(n: nat) {
    n == 0 || 64 <= n < 0x100 || 0x4000 <= n < 0x1_0000 || 0x40_0000 <= n < 0x100_0000
  }

  function OfString(s: Str): Measure {
    Measure(ByteCount(|s|) + |s|, if IsShort(|s|) then 1 else 0)
  }

  function OfScalar(v: Scalar): Measure {
    match v
    case Null => Measure(0, 0)
    case Integer(n) => Measure((SizeInBase2(Magnitude(n)) + 7) / 8 + 1, 0)
    case Text(s) => OfString(s)
    case Boolean(_) => Measure(1, 0)
  }

  function OfField(e: Entry<Str, Scalar>): Measure {
    Plus(Measure(1, 0), Plus(OfString(e.key), OfScalar(e.value)))
  }

  function OfItem(v: Scalar): Measure {
    Plus(Measure(1, 0), OfScalar(v))
  }

  function OfFields(es: seq<Entry<Str, Scalar>>): Measure {
    if es == [] then Measure(0, 0) else Plus(OfField(es[0]), OfFields(es[1..]))
  }

  function OfItems(vs: seq<Scalar>): Measure {
    if vs == [] then Measure(0, 0) else Plus(OfItem(vs[0]), OfItems(vs[1..]))
  }

  function OfValue(v: Value): Measure {
    match v
    case Single(s) => OfScalar(s)
    case Table(slots) => Plus(Measure(9, 0), OfFields(Listed(slots)))
    case List(items) => Plus(Measure(8, 0), OfItems(items))
  }

  function OfPair(e: Entry<Str, Value>): Measure {
    Plus(Measure(1, 0), Plus(OfString(e.key), OfValue(e.value)))
  }

  function Total(m: Measure): nat {
    m.size + m.missing
  }

  // ----------------------------------------------------- what the encoder takes

  /** For the lengths a string can have, the estimate is right, or one byte short for exactly
      the lengths named. */
  lemma StringTakes(s: Str)
    requires |s| < STRING_LIMIT
    ensures |EncodeString(s)| == Total(OfString(s))
  {
    hide ByteCount;
    var n := |s|;
    Powers();
    ByteCountFits(n, 0);
    ByteCountFits(n, 1);
    ByteCountFits(n, 2);
    ByteCountFits(n, 3);
    ByteCountFits(n, 4);
    ByteCountFits(n / 64, 0);
    ByteCountFits(n / 64, 1);
    ByteCountFits(n / 64, 2);
    ByteCountFits(n / 64, 3);
  }

  lemma Powers()
    ensures Pow256(0) == 1 && Pow256(1) == 0x100 && Pow256(2) == 0x1_0000
    ensures Pow256(3) == 0x100_0000 && Pow256(4) == 0x1_0000_0000
  {
  }

  lemma ScalarTakes(v: Scalar)
    requires ScalarOk(v)
    ensures |EncodeScalar(v)| == Total(OfScalar(v))
  {
    hide EncodeString, OfString, BigEndian, BitCount;
    match v
    case Null =>
    case Integer(n) => ByteCountIsLength(Magnitude(n));
    case Text(s) => StringTakes(s);
    case Boolean(_) =>
  }

  lemma {:induction false} FieldsTake(es: seq<Entry<Str, Scalar>>)
    requires forall i :: 0 <= i < |es| ==> FieldOk(es[i])
    ensures |EncodeFields(es)| == Total(OfFields(es))
  {
    hide EncodeString, EncodeScalar, OfString, OfScalar;
    if es != [] {
      StringTakes(es[0].key);
      ScalarTakes(es[0].value);
      FieldsTake(es[1..]);
    }
  }

  lemma {:induction false} ItemsTake(vs: seq<Scalar>)
    requires forall i :: 0 <= i < |vs| ==> ScalarOk(vs[i])
    ensures |EncodeItems(vs)| == Total(OfItems(vs))
  {
    hide EncodeScalar, OfScalar;
    if vs != [] {
      ScalarTakes(vs[0]);
      ItemsTake(vs[1..]);
    }
  }

  /** A pair takes a byte more than its estimate for every one of its strings, the key
      included, that has such a length. */
  lemma PairTakes(e: Entry<Str, Value>)
    requires PairOk(e)
    ensures |EncodePair(e)| == Total(OfPair(e))
  {
    hide EncodeString, EncodeScalar, EncodeFields, EncodeItems, OfString, OfScalar, OfFields, OfItems, Listed, FieldOk,
      ScalarOk;
    StringTakes(e.key);
    match e.value
    case Single(s) => ScalarTakes(s);
    case Table(slots) => FieldsTake(Listed(slots));
    case List(items) => ItemsTake(items);
  }

  // ------------------------------------------------------------------ measuring

  lemma {:induction false} FieldsPlus(a: seq<Entry<Str, Scalar>>, e: Entry<Str, Scalar>)
    ensures OfFields(a + [e]) == Plus(OfFields(a), OfField(e))
  {
    hide OfField;
    if a == [] {
      assert a + [e] == [e] && [e][1..] == a;
    } else {
      FieldsPlus(a[1..], e);
      assert (a + [e])[0] == a[0] && (a + [e])[1..] == a[1..] + [e];
    }
  }

  /** The walk over the slots of a table. */
  method MeasureFields(slots: Slots<Str, Scalar>) returns (m: Measure)
    ensures m == OfFields(Listed(slots))
  {
    hide OfField, OfFields, Listed;
    m := Measure(0, 0);
    assert Listed(slots[..0]) == [] && OfFields([]) == m by { NoFields(slots); }
    for i := 0 to |slots|
      invariant m == OfFields(Listed(slots[..i]))
    {
      ListedStep(slots, i);
      if slots[i].Some? {
        FieldsPlus(Listed(slots[..i]), slots[i].value);
        m := Plus(m, OfField(slots[i].value));
      } else {
        assert Listed(slots[..i + 1]) == Listed(slots[..i]);
      }
    }
    assert slots[..|slots|] == slots;
  }

  lemma NoFields(slots: Slots<Str, Scalar>)
    ensures Listed(slots[..0]) == [] && OfFields([]) == Measure(0, 0)
  {
  }

  lemma ItemsFrom(items: seq<Scalar>, i: nat)
    requires i <= |items|
    ensures i == |items| ==> OfItems(items[i..]) == Measure(0, 0)
    ensures i < |items| ==> OfItems(items[i..]) == Plus(OfItem(items[i]), OfItems(items[i + 1..]))
  {
    if i < |items| { assert items[i..][0] == items[i] && items[i..][1..] == items[i + 1..]; }
  }

  lemma PlusFacts(a: Measure, b: Measure, c: Measure)
    ensures Plus(Plus(a, b), c) == Plus(a, Plus(b, c))
    ensures Plus(Measure(0, 0), c) == c == Plus(c, Measure(0, 0))
  {
  }

  /** The walk over the nodes of a list, which has the same end as the encoder's. */
  method MeasureItems(list: LinkedList<Scalar>) returns (m: Option<Measure>)
    requires list.Valid()
    ensures m.Some? <==> list.EndIsNull(Front)
    ensures m.Some? ==> m.value == OfItems(list.Contents())
  {
    hide OfItem, OfItems, Plus, LinkedList.Valid, LinkedList.Contents, LinkedList.EndIsNull;
    ghost var items, i := list.Contents(), 0;
    var sum, node := Measure(0, 0), list.begin;
    list.Along(0);
    assert items[0..] == items;
    PlusFacts(sum, sum, OfItems(items));
    if node != null && node in list.freed { return None; }
    while node != null
      invariant 0 <= i <= list.size && list.Valid()
      invariant if i < list.size then node == list.nodes[i] else node == null && list.EndIsNull(Front)
      invariant OfItems(items) == Plus(sum, OfItems(items[i..]))
      decreases list.size - i
    {
      list.Along(i);
      ItemsFrom(items, i);
      PlusFacts(sum, OfItem(items[i]), OfItems(items[i + 1..]));
      sum := Plus(sum, OfItem(node.data));
      node := node.next;
      if node != null && node in list.freed { return None; }
      i := i + 1;
    }
    ItemsFrom(items, i);
    PlusFacts(sum, sum, sum);
    m := Some(sum);
  }

  /** One pair: its measure, or None if the walk over its list leaves the list. */
  method MeasurePair(e: Entry<Str, Stored>, ghost lists: Lists) returns (m: Option<Measure>)
    requires Recorded(lists) && Known(e.value, lists)
    ensures m.Some? <==> Ended(e.value, lists)
    ensures m.Some? ==> m.value == OfPair(PairImage(e, lists))
  {
    hide OfString, OfScalar, OfFields, OfItems, Listed, LinkedList.Valid, LinkedList.Contents, LinkedList.EndIsNull;
    var v;
    match e.value {
      case StoredSingle(s) => v := OfScalar(s);
      case StoredTable(slots) =>
        v := MeasureFields(slots);
        v := Plus(Measure(9, 0), v);
      case StoredList(list) =>
        var items := MeasureItems(list);
        if items.None? { return None; }
        v := Plus(Measure(8, 0), items.value);
    }
    m := Some(Plus(Measure(1, 0), Plus(OfString(e.key), v)));
  }

  // ----------------------------------------------------------------- the buffer

  /** The size of the buffer for pairs: the largest estimate. */
  function RoomFor(es: seq<Entry<Str, Value>>): nat {
    if es == [] then 0 else
      var room, size := RoomFor(es[..|es| - 1]), OfPair(es[|es| - 1]).size;
      if room > size then room else size
  }

  lemma {:induction false} RoomIsLargest(es: seq<Entry<Str, Value>>)
    ensures forall i :: 0 <= i < |es| ==> OfPair(es[i]).size <= RoomFor(es)
  {
    hide OfPair;
    if es != [] { RoomIsLargest(es[..|es| - 1]); }
  }

  ghost predicate AllFit(es: seq<Entry<Str, Value>>, room: nat) {
    forall i :: 0 <= i < |es| ==> Total(OfPair(es[i])) <= room
  }

  /** The buffer is large enough for every pair. */
  ghost predicate Suffices(es: seq<Entry<Str, Value>>) {
    AllFit(es, RoomFor(es))
  }

  /** It is if no string, as key or inside a value, has one of the short lengths; for a
      single pair, only then. */
  lemma SufficesWithoutShort(es: seq<Entry<Str, Value>>)
    ensures (forall i :: 0 <= i < |es| ==> OfPair(es[i]).missing == 0) ==> Suffices(es)
    ensures |es| == 1 ==> (Suffices(es) <==> OfPair(es[0]).missing == 0)
  {
    hide OfPair;
    RoomIsLargest(es);
    if |es| == 1 { assert RoomFor(es[..0]) == 0; }
  }

  /** A single string value of 100 bytes overruns its buffer by one. */
  lemma HundredBytesOverrun(key: Str, s: Str)
    requires |s| == 100
    ensures var e := Entry(key, Single(Text(s)));
      !Suffices([e]) && Total(OfPair(e)) >= RoomFor([e]) + 1
  {
    var e := Entry(key, Single(Text(s)));
    assert OfString(s).missing == 1;
    assert OfPair(e).missing >= 1;
    SufficesWithoutShort([e]);
    assert RoomFor([e][..0]) == 0;
  }
}
