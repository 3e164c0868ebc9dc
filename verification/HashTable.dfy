/** The open-addressing hash table: linear probing, doubling growth and deletion by
    shifting entries back. `hash` is any function and keys are compared by equality. */
module HashTables {
  import opened Bytes
  import opened Probing

  class HashTable<K(==,!new), V> {
    var elements: array<Option<Entry<K, V>>>
    var count: nat
    const hash: K -> nat

    /** The array is the whole representation; `count` is the number of keys, and each
        key past the first went in below the load limit of the present capacity. */
    ghost predicate Valid()
      reads this, elements
    {
      && elements.Length > 0 && WellFormed(elements[..], hash)
      && count == |Contents()| && 4 * count < 3 * elements.Length + 4
    }

    ghost function Contents(): map<K, V>
      reads this, elements
    {
      AsMap(elements[..])
    }

    constructor (capacity: nat, hash: K -> nat)
      requires capacity > 0
      ensures Valid() && fresh(elements) && elements.Length == capacity
      ensures Contents() == map[] && this.hash == hash
    {
      elements := new Option<Entry<K, V>>[capacity](_ => None);
      count := 0;
      this.hash := hash;
      new;
      BlankTable(elements[..], hash);
    }

    /** Doubles the table when it is three quarters full, re-inserting every entry. `memory`
        is what the new array happens to hold: it is not cleared. The result is this table,
        grown, if and only if every slot of it is free; a probe that finds none free never
        ends, which is the result false. */
    method Grow(memory: seq<Option<Entry<K, V>>>) returns (ended: bool)
      requires Valid() && |memory| == 2 * elements.Length
      modifies this
      ensures 4 * old(count) < 3 * old(elements.Length) ==> ended && Valid() && elements == old(elements)
      ensures 4 * old(count) >= 3 * old(elements.Length) ==>
        (ended && Valid() <==> forall i :: 0 <= i < |memory| ==> memory[i].None?)
      ensures count == old(count) && (ended && Valid() ==> Contents() == old(Contents()))
      ensures ended && Valid() ==> 4 * count < 3 * elements.Length
      ensures ended && 4 * old(count) >= 3 * old(elements.Length) ==>
        fresh(elements) && elements.Length == 2 * old(elements.Length)
    {
      hide Home, NoHoles, UniqueKeys, AsMap, Listed;
      ghost var s := elements[..];
      var oldCapacity := elements.Length;
      if 4 * count < 3 * oldCapacity { return true; }
      ghost var blank := forall i :: 0 <= i < |memory| ==> memory[i].None?;
      var newCapacity := oldCapacity * 2;
      var grown := new Option<Entry<K, V>>[newCapacity](i requires 0 <= i < newCapacity => memory[i]);
      assert grown[..] == memory;
      ListedNothing(s, memory);
      ListedRebuilds(s);
      if blank { BlankTable(memory, hash); }
      assert AsMap(s[..0]) == map[] by { BlankTable(s[..0], hash); }
      var i := 0;
      while i < oldCapacity
        invariant 0 <= i <= oldCapacity
        invariant blank ==> WellFormed(grown[..], hash) && AsMap(grown[..]) == AsMap(s[..i])
        invariant |Listed(grown[..])| == |Listed(memory)| + |Listed(s[..i])|
        modifies grown
      {
        var element := elements[i];
        PrefixStep(s, i);
        ListedStep(s, i);
        if element.Some? {
          PrefixMap(s, i);
          ended := Rehash(grown, element.value);
          if !ended { return; }
        }
        i := i + 1;
      }
      assert s[..i] == s;
      elements := grown;
      ended := true;
      if UniqueKeys(elements[..]) { ListedRebuilds(elements[..]); }
    }

    lemma ListedNothing(s: Slots<K, V>, memory: Slots<K, V>)
      ensures Listed(s[..0]) == [] && (Listed(memory) == [] <==> forall i :: 0 <= i < |memory| ==> memory[i].None?)
    {
      if j :| 0 <= j < |memory| && memory[j].Some? {
        ListedSplit(memory, j);
        ListedStep(memory, j);
      }
      if forall i :: 0 <= i < |memory| ==> memory[i].None? { BlankTable(memory, hash); ListedRebuilds(memory); }
    }

    /** Probes for a free slot of the new array and puts an entry with a new key there; gives
        up when it comes round without finding one. */
    method Rehash(grown: array<Option<Entry<K, V>>>, e: Entry<K, V>) returns (placed: bool)
      requires grown.Length > 0
      modifies grown
      ensures placed ==> |Listed(grown[..])| == old(|Listed(grown[..])|) + 1
      ensures old(Spacious(grown[..], e.key)) ==>
        placed && WellFormed(grown[..], hash) && AsMap(grown[..]) == old(AsMap(grown[..]))[e.key := e.value]
    {
      hide Home, NoHoles, OnPath, AsMap, UniqueKeys, Passed, Listed;
      ghost var s := grown[..];
      ghost var spacious := Spacious(s, e.key);
      ghost var z := 0;
      ghost var start := Home(hash, |s|, e.key);
      var first := hash(e.key) % grown.Length;
      var index := first;
      HomeIs(hash, |s|, e.key);
      if spacious {
        z := HasFreeSlot(s);
        AbsentKey(s, e.key);
        PassStart(s, start, e.key);
      }
      while grown[index].Some?
        invariant 0 <= index < grown.Length && grown[..] == s
        invariant spacious ==> Passed(s, start, index, e.key) && Dist(|s|, start, index) <= Dist(|s|, start, z)
        decreases |s| - Dist(|s|, start, index)
      {
        if spacious { PassOn(s, start, index, e.key); }
        NextSlot(|s|, index);
        index := (index + 1) % grown.Length;
        if index == first { return false; }
      }
      if spacious { PlaceFree(s, hash, index, e.key, e.value); }
      ListedUpdate(s, index, e);
      grown[index] := Some(e);
      assert grown[..] == s[index := Some(Entry(e.key, e.value))];
      placed := true;
    }

    /** A well-formed array with a free slot and without the key. */
    ghost predicate Spacious(s: Slots<K, V>, k: K) {
      |s| > 0 && WellFormed(s, hash) && |AsMap(s)| < |s| && k !in AsMap(s)
    }

    lemma ListedUpdate(s: Slots<K, V>, i: nat, e: Entry<K, V>)
      requires i < |s| && s[i].None?
      ensures |Listed(s[i := Some(e)])| == |Listed(s)| + 1
    {
      var t := s[i := Some(e)];
      ListedSplit(s, i);
      ListedSplit(t, i);
      ListedStep(s, i);
      ListedStep(t, i);
      assert t[..i] == s[..i] && t[i + 1..] == s[i + 1..];
    }

    /** Inserts if absent, growing first; returns the slot that now holds the key. */
    method Insert(key: K, value: V) returns (index: nat)
      requires Valid()
      modifies this, elements
      ensures Valid() && (elements == old(elements) || fresh(elements))
      ensures elements.Length ==
        if 4 * old(count) < 3 * old(elements.Length) then old(elements.Length) else 2 * old(elements.Length)
      ensures key in old(Contents()) ==> Contents() == old(Contents()) && count == old(count)
      ensures key !in old(Contents()) ==> Contents() == old(Contents())[key := value] && count == old(count) + 1
      ensures index < elements.Length && elements[index] == Some(Entry(key, Contents()[key]))
    {
      hide Home, NoHoles, UniqueKeys, AsMap, Passed, Listed, OnPath;
      var ended := Grow(seq(2 * elements.Length, _ => None));
      ghost var s := elements[..];
      var z := HasFreeSlot(s);
      var capacity := elements.Length;
      ghost var start := Home(hash, |s|, key);
      HomeIs(hash, |s|, key);
      PassStart(s, start, key);
      index := hash(key) % capacity;
      while elements[index].Some?
        invariant 0 <= index < capacity && Passed(s, start, index, key)
        invariant Dist(|s|, start, index) <= Dist(|s|, start, z)
        decreases |s| - Dist(|s|, start, index)
        modifies {}
      {
        if elements[index].value.key == key {
          FoundAt(s, index);
          return;
        }
        PassOn(s, start, index, key);
        index := (index + 1) % capacity;
      }
      PlaceFree(s, hash, index, key, value);
      elements[index] := Some(Entry(key, value));
      count := count + 1;
      assert elements[..] == s[index := Some(Entry(key, value))];
    }

    /** The probe that lookup, membership test and deletion share: ends at the key, at a
        free slot, or back where it started. */
    method Find(key: K) returns (found: bool, index: nat)
      requires Valid()
      ensures found <==> key in Contents()
      ensures found ==> index < elements.Length && elements[index].Some? && elements[index].value.key == key
      ensures found ==> elements[index].value.value == Contents()[key]
    {
      hide Home, NoHoles, UniqueKeys, AsMap, Passed;
      ghost var s := elements[..];
      var capacity := elements.Length;
      var start := hash(key) % capacity;
      HomeIs(hash, |s|, key);
      PassStart(s, start, key);
      index := start;
      while !(elements[index].Some? && elements[index].value.key == key)
        invariant 0 <= index < capacity && Passed(s, start, index, key)
        decreases capacity - Dist(capacity, start, index)
      {
        if elements[index].None? {
          MissAtFree(s, hash, index, key);
          return false, index;
        }
        PassOn(s, start, index, key);
        index := (index + 1) % capacity;
        if index == start {
          AbsentKey(s, key);
          return false, index;
        }
      }
      FoundAt(s, index);
      found := true;
    }

    method Get(key: K) returns (r: Option<V>)
      requires Valid()
      ensures r == if key in Contents() then Some(Contents()[key]) else None
    {
      var found, index := Find(key);
      r := if found then Some(elements[index].value.value) else None;
    }

    method Exists(key: K) returns (b: bool)
      requires Valid()
      ensures b <==> key in Contents()
    {
      var found, _ := Find(key);
      b := found;
    }

    /** Removes the key, then shifts entries back until the probe paths are whole again. */
    method Delete(key: K) returns (deleted: bool)
      requires Valid()
      modifies this, elements
      ensures Valid() && elements == old(elements)
      ensures deleted <==> key in old(Contents())
      ensures Contents() == old(Contents()) - {key} && count == |Contents()|
    {
      hide Home, NoHoles, UniqueKeys, AsMap;
      var found, deletion := Find(key);
      if !found { return false; }
      OpenHole(elements[..], hash, deletion);
      count := count - 1;
      ShiftBack(deletion);
      deleted := true;
    }

    /** The shifting loop. `start` is the slot to be cleared. Each move brings an entry
        nearer its home, so the loop ends even in a full table, where the scan passes
        slots it has moved entries into. */
    method ShiftBack(start: nat)
      requires start < elements.Length && HoleInv(elements[..][start := None], hash, start, 0)
      modifies elements
      ensures WellFormed(elements[..], hash)
      ensures AsMap(elements[..]) == old(AsMap(elements[..][start := None]))
    {
      hide Home, HoleInv, WellFormed, AsMap, Displacement;
      var deletion := start;
      while true
        invariant 0 <= deletion < elements.Length
        invariant HoleInv(elements[..][deletion := None], hash, deletion, 0)
        invariant AsMap(elements[..][deletion := None]) == old(AsMap(elements[..][start := None]))
        decreases Displacement(elements[..][deletion := None], hash)
      {
        ghost var s := elements[..][deletion := None];
        elements[deletion] := None;
        assert elements[..] == s;
        var done, current, scanned := Scan(deletion);
        if done { return; }
        MoveBack(s, hash, deletion, scanned, current);
        elements[deletion] := elements[current];
        assert elements[..][current := None] == s[deletion := s[current]][current := None];
        deletion := current;
      }
    }

    /** Looks for the next entry whose home is not in the cyclic interval (deletion, current];
        it is done when it meets a free slot first. */
    method Scan(deletion: nat) returns (done: bool, current: nat, ghost scanned: nat)
      requires HoleInv(elements[..], hash, deletion, 0)
      ensures done ==> WellFormed(elements[..], hash)
      ensures !done ==> current < elements.Length && elements[current].Some?
      ensures !done ==> HoleInv(elements[..], hash, deletion, scanned)
      ensures !done ==> !InInterval(deletion, Home(hash, elements.Length, elements[current].value.key), current)
    {
      hide Home, WellFormed, OnPath;
      ghost var s := elements[..];
      var capacity := elements.Length;
      current, scanned := deletion, 0;
      while true
        invariant 0 <= current < capacity && scanned < capacity
        invariant HoleInv(s, hash, deletion, scanned) && Dist(capacity, deletion, current) == scanned
        decreases capacity - scanned
      {
        NextSlot(capacity, current);
        current := (current + 1) % capacity;
        if elements[current].None? {
          ScanEnds(s, hash, deletion, scanned, current);
          return true, current, scanned;
        }
        var ideal := hash(elements[current].value.key) % capacity;
        HomeIs(hash, capacity, elements[current].value.key);
        if deletion <= current {
          if !(deletion < ideal && ideal <= current) { return false, current, scanned; }
        } else {
          if !(deletion < ideal || ideal <= current) { return false, current, scanned; }
        }
        ScanOn(s, hash, deletion, scanned, current);
        scanned := scanned + 1;
      }
    }

    /** The walk that calls a procedure on every entry: the entries it is called on, in order. */
    method Foreach() returns (visited: seq<Entry<K, V>>)
      ensures visited == Listed(elements[..])
    {
      visited := [];
      ghost var s := elements[..];
      assert Listed(s[..0]) == [];
      for i := 0 to elements.Length
        invariant visited == Listed(s[..i])
      {
        assert s[..i + 1][..i] == s[..i];
        if elements[i].Some? { visited := visited + [elements[i].value]; }
      }
      assert s[..elements.Length] == s;
    }
  }

  /** One slot of the new memory that is not free spoils the grown table. */
  method GarbageGrows<K(==,!new), V>(key: K, value: V, garbage: Entry<K, V>, hash: K -> nat)
      returns (table: HashTable<K, V>, ended: bool)
    ensures !(ended && table.Valid())
  {
    table := new HashTable(1, hash);
    var index := table.Insert(key, value);
    assert table.elements.Length == 1 && table.count == 1;
    var memory := [Some(garbage), None];
    assert memory[0].Some?;
    ended := table.Grow(memory);
  }
}
