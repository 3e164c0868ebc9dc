/** The encoder: writes key-value pairs into a byte buffer, moving a position along. The
    buffer is taken to be large enough. */
module Generator {
  import opened Bytes
  import opened Probing
  import opened StringCodec
  import opened IntegerCodec
  import opened ValueCodec
  import opened LinkedLists

  lemma {:induction false} FieldsAppend(a: seq<Entry<Str, Scalar>>, b: seq<Entry<Str, Scalar>>)
    requires forall i :: 0 <= i < |a| ==> FieldOk(a[i])
    requires forall i :: 0 <= i < |b| ==> FieldOk(b[i])
    ensures forall i :: 0 <= i < |a + b| ==> FieldOk((a + b)[i])
    ensures EncodeFields(a + b) == EncodeFields(a) + EncodeFields(b)
  {
    hide EncodeField, FieldOk;
    if a == [] {
      assert a + b == b;
    } else {
      FieldsAppend(a[1..], b);
      assert (a + b)[1..] == a[1..] + b && (a + b)[0] == a[0];
    }
  }

  method GenerateScalar(data: array<Byte>, len: nat, v: Scalar) returns (next: nat)
    requires ScalarOk(v) && len + |EncodeScalar(v)| <= data.Length
    modifies data
    ensures next == len + |EncodeScalar(v)| && data[..next] == old(data[..len]) + EncodeScalar(v)
  {
    match v
    case Null =>
      next := len;
    case Integer(n) =>
      next := GenerateInteger(data, len, n);
    case Text(s) =>
      var written;
      next, written := GenerateString(data, len, s);
    case Boolean(b) =>
      next := Append(data, len, [if b then 1 else 0]);
  }

  /** One field of a hash table: type, name, value. */
  method GenerateField(data: array<Byte>, len: nat, e: Entry<Str, Scalar>) returns (next: nat)
    requires FieldOk(e) && len + |EncodeField(e)| <= data.Length
    modifies data
    ensures next == len + |EncodeField(e)| && data[..next] == old(data[..len]) + EncodeField(e)
  {
    hide EncodeScalar, EncodeString, ScalarOk;
    ghost var before := data[..len];
    next := Append(data, len, [ScalarType(e.value)]);
    var written;
    next, written := GenerateString(data, next, e.key);
    next := GenerateScalar(data, next, e.value);
    assert before + [ScalarType(e.value)] + EncodeString(e.key) + EncodeScalar(e.value) == before + EncodeField(e);
  }

  /** The walk over the slots of a table. */
  method GenerateFields(data: array<Byte>, len: nat, slots: Slots<Str, Scalar>) returns (next: nat)
    requires forall i :: 0 <= i < |Listed(slots)| ==> FieldOk(Listed(slots)[i])
    requires len + |EncodeFields(Listed(slots))| <= data.Length
    modifies data
    ensures next == len + |EncodeFields(Listed(slots))|
    ensures data[..next] == old(data[..len]) + EncodeFields(Listed(slots))
  {
    hide FieldOk, EncodeField, EncodeFields, Listed;
    next := len;
    ghost var before, all := data[..len], Listed(slots);
    ghost var done, left := [], all;
    Nothing(slots);
    for i := 0 to |slots|
      invariant all == done + left && left == Listed(slots[i..])
      invariant forall j :: 0 <= j < |done| ==> FieldOk(done[j])
      invariant forall j :: 0 <= j < |left| ==> FieldOk(left[j])
      invariant next + |EncodeFields(left)| == len + |EncodeFields(all)|
      invariant next == len + |EncodeFields(done)| && data[..next] == before + EncodeFields(done)
    {
      ListedStep(slots, i);
      if slots[i].Some? {
        var e := slots[i].value;
        assert left[0] == e && left[1..] == Listed(slots[i + 1..]);
        FieldsHead(left);
        next := GenerateField(data, next, e);
        FieldsSnoc(done, e);
        done, left := done + [e], left[1..];
      }
    }
    assert all == done;
  }

  lemma Nothing(slots: Slots<Str, Scalar>)
    ensures EncodeFields([]) == [] && slots[0..] == slots && Listed(slots[|slots|..]) == []
  {
  }

  lemma FieldsHead(es: seq<Entry<Str, Scalar>>)
    requires es != [] && forall i :: 0 <= i < |es| ==> FieldOk(es[i])
    ensures EncodeFields(es) == EncodeField(es[0]) + EncodeFields(es[1..])
  {
  }

  lemma FieldsSnoc(es: seq<Entry<Str, Scalar>>, e: Entry<Str, Scalar>)
    requires FieldOk(e) && forall i :: 0 <= i < |es| ==> FieldOk(es[i])
    ensures forall i :: 0 <= i < |es + [e]| ==> FieldOk((es + [e])[i])
    ensures EncodeFields(es + [e]) == EncodeFields(es) + EncodeField(e)
  {
    FieldsAppend(es, [e]);
    FieldsHead([e]);
    assert EncodeFields([]) == [] && [e][1..] == [];
  }

  /** One item of a list: type, value. */
  method GenerateItem(data: array<Byte>, len: nat, v: Scalar) returns (next: nat)
    requires ScalarOk(v) && len + |EncodeItem(v)| <= data.Length
    modifies data
    ensures next == len + |EncodeItem(v)| && data[..next] == old(data[..len]) + EncodeItem(v)
  {
    hide EncodeScalar, ScalarOk;
    ghost var before := data[..len];
    next := Append(data, len, [ScalarType(v)]);
    next := GenerateScalar(data, next, v);
    assert before + [ScalarType(v)] + EncodeScalar(v) == before + EncodeItem(v);
  }

  lemma ItemsEnds(items: seq<Scalar>)
    requires forall i :: 0 <= i < |items| ==> ScalarOk(items[i])
    ensures items[0..] == items && EncodeItems(items[|items|..]) == [] && [] + EncodeItems(items) == EncodeItems(items)
  {
    hide EncodeItem, ScalarOk;
    var none := items[|items|..];
    assert none == [] && EncodeItems(none) == [];
  }

  lemma ItemsStep(items: seq<Scalar>, i: nat, before: seq<Byte>, done: seq<Byte>)
    requires i < |items| && forall i :: 0 <= i < |items| ==> ScalarOk(items[i])
    ensures done + EncodeItems(items[i..]) == done + EncodeItem(items[i]) + EncodeItems(items[i + 1..])
    ensures |EncodeItems(items[i..])| >= |EncodeItem(items[i])|
    ensures before + done + EncodeItem(items[i]) == before + (done + EncodeItem(items[i]))
  {
    hide EncodeItem;
    assert items[i..][0] == items[i] && items[i..][1..] == items[i + 1..];
  }

  /** The walk over the nodes of a list, by their links until NULL. It writes the items, and
      nothing else, if and only if the link that leaves the list is NULL; otherwise it goes on
      into a freed node, and the result is None. */
  method GenerateItems(data: array<Byte>, len: nat, list: LinkedList<Scalar>) returns (next: Option<nat>)
    requires list.Valid() && forall i :: 0 <= i < list.size ==> ScalarOk(list.Contents()[i])
    requires len + |EncodeItems(list.Contents())| <= data.Length
    modifies data
    ensures next.Some? <==> list.EndIsNull(Front)
    ensures next.Some? ==> next.value == len + |EncodeItems(list.Contents())|
    ensures next.Some? ==> data[..next.value] == old(data[..len]) + EncodeItems(list.Contents())
  {
    hide EncodeItem, EncodeItems, ScalarOk, LinkedList.Valid, LinkedList.Contents, LinkedList.EndIsNull;
    ghost var before, items := data[..len], list.Contents();
    ghost var done: seq<Byte>, i := [], 0;
    var at, node := len, list.begin;
    list.Along(0);
    ItemsEnds(items);
    if node != null && node in list.freed { return None; }
    while node != null
      invariant 0 <= i <= list.size && list.Valid()
      invariant if i < list.size then node == list.nodes[i] else node == null && list.EndIsNull(Front)
      invariant EncodeItems(items) == done + EncodeItems(items[i..])
      invariant at == len + |done| && data[..at] == before + done
      decreases list.size - i
    {
      list.Along(i);
      ghost var item := EncodeItem(items[i]);
      ItemsStep(items, i, before, done);
      at := GenerateItem(data, at, node.data);
      done := done + item;
      node := node.next;
      if node != null && node in list.freed { return None; }
      i := i + 1;
    }
    assert done + [] == done;
    next := Some(at);
  }

  // ------------------------------------------------------------ values in memory

  /** A value as a database holds it: a list is a reference to its nodes. */
  datatype Stored =
    | StoredSingle(scalar: Scalar)
    | StoredTable(slots: Slots<Str, Scalar>)
    | StoredList(list: LinkedList<Scalar>)

  /** What a list holds, and whether its last node ends it. */
  datatype ListState = ListState(items: seq<Scalar>, ended: bool)

  type Lists = map<LinkedList<Scalar>, ListState>

  /** The record of the lists in memory is right. */
  ghost predicate Recorded(lists: Lists)
    reads lists.Keys, set l, i | l in lists && 0 <= i < |l.nodes| :: l.nodes[i]
  {
    forall l :: l in lists ==> IsRecorded(l, lists[l])
  }

  ghost predicate IsRecorded(l: LinkedList<Scalar>, state: ListState)
    reads l, l.nodes
  {
    l.Valid() && state == ListState(l.Contents(), l.EndIsNull(Front))
  }

  ghost predicate Known(v: Stored, lists: Lists) {
    v.StoredList? ==> v.list in lists
  }

  /** The value with its list's items in place of the reference. */
  ghost function Image(v: Stored, lists: Lists): Value
    requires Known(v, lists)
  {
    match v
    case StoredSingle(s) => Single(s)
    case StoredTable(slots) => Table(slots)
    case StoredList(list) => List(lists[list].items)
  }

  /** A list that does not end properly cannot be written. */
  ghost predicate Ended(v: Stored, lists: Lists)
    requires Known(v, lists)
  {
    v.StoredList? ==> lists[v.list].ended
  }

  ghost function PairImage(e: Entry<Str, Stored>, lists: Lists): Entry<Str, Value>
    requires Known(e.value, lists)
  {
    Entry(e.key, Image(e.value, lists))
  }

  /** One key-value pair from the start of the buffer: its length, or None if the walk over
      its list leaves the list. */
  method GenerateValue(data: array<Byte>, e: Entry<Str, Stored>, ghost lists: Lists) returns (len: Option<nat>)
    requires Recorded(lists) && Known(e.value, lists)
    requires PairOk(PairImage(e, lists)) && |EncodePair(PairImage(e, lists))| <= data.Length
    modifies data
    ensures len.Some? <==> Ended(e.value, lists)
    ensures len.Some? ==> len.value == |EncodePair(PairImage(e, lists))|
    ensures len.Some? ==> data[..len.value] == EncodePair(PairImage(e, lists))
  {
    hide EncodeScalar, EncodeString, EncodeBody, ValueOk, LinkedList.Contents, LinkedList.EndIsNull, LinkedList.Valid;
    ghost var v := Image(e.value, lists);
    var at, written := GenerateString(data, 0, e.key);
    at := Append(data, at, [StoredType(e.value)]);
    assert data[..at] == EncodeString(e.key) + [ValueType(v)];
    match e.value
    case StoredSingle(s) =>
      SingleBody(s);
      at := GenerateScalar(data, at, s);
      len := Some(at);
    case StoredTable(slots) =>
      at := GenerateTable(data, at, slots);
      len := Some(at);
    case StoredList(list) =>
      len := GenerateList(data, at, list);
  }

  lemma SingleBody(s: Scalar)
    requires ValueOk(Single(s))
    ensures ScalarOk(s) && EncodeBody(Single(s)) == EncodeScalar(s)
  {
  }

  /** A table's allocated size, its fields and the end mark. */
  method GenerateTable(data: array<Byte>, len: nat, slots: Slots<Str, Scalar>) returns (next: nat)
    requires ValueOk(Table(slots)) && len + |EncodeBody(Table(slots))| <= data.Length
    modifies data
    ensures next == len + |EncodeBody(Table(slots))| && data[..next] == old(data[..len]) + EncodeBody(Table(slots))
  {
    hide FieldOk, EncodeFields, LittleEndian, Listed, Pow256;
    ghost var before := data[..len];
    next := Append(data, len, LittleEndian(|slots|, 8));
    next := GenerateFields(data, next, slots);
    next := Append(data, next, [TABLE_END]);
    assert before + LittleEndian(|slots|, 8) + EncodeFields(Listed(slots)) + [TABLE_END] ==
      before + EncodeBody(Table(slots));
  }

  /** A list's size and its items. */
  method GenerateList(data: array<Byte>, len: nat, list: LinkedList<Scalar>) returns (next: Option<nat>)
    requires list.Valid() && ValueOk(List(list.Contents()))
    requires len + |EncodeBody(List(list.Contents()))| <= data.Length
    modifies data
    ensures next.Some? <==> list.EndIsNull(Front)
    ensures next.Some? ==> next.value == len + |EncodeBody(List(list.Contents()))|
    ensures next.Some? ==> data[..next.value] == old(data[..len]) + EncodeBody(List(list.Contents()))
  {
    hide ScalarOk, EncodeItems, LittleEndian, Pow256, LinkedList.Contents, LinkedList.EndIsNull, LinkedList.Valid;
    ghost var before, items := data[..len], list.Contents();
    list.Along(0);
    var at := Append(data, len, LittleEndian(list.size, 8));
    next := GenerateItems(data, at, list);
    assert before + LittleEndian(|items|, 8) + EncodeItems(items) == before + EncodeBody(List(items));
  }

  function StoredType(v: Stored): Byte {
    match v
    case StoredSingle(s) => ScalarType(s)
    case StoredTable(_) => TYPE_TABLE
    case StoredList(_) => TYPE_LIST
  }

  /** Two pushes and a pop at the back, then a save: the value is not written. */
  method PushPushPopGenerate(data: array<Byte>, x: Scalar, y: Scalar) returns (list: LinkedList<Scalar>, next: Option<nat>)
    requires ScalarOk(x) && |EncodeItems([x])| <= data.Length
    modifies data
    ensures fresh(list) && list.Valid() && list.Contents() == [x] && next.None?
  {
    list := new LinkedList();
    var a := list.InsertBack(x);
    var b := list.InsertBack(y);
    var _ := list.RemoveBack();
    assert list.Contents() == [x];
    next := GenerateItems(data, 0, list);
  }
}
