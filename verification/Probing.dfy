/** Linear probing over a circular array of optional entries: what a well-formed
    table is, and why filling a free slot and shifting entries back keep it so.
    Nothing here knows how the table is stored or what the hash function is. */
module Probing {
  import opened Bytes

  datatype Entry<+K, +V> = Entry(key: K, value: V)

  type Slots<K, V> = seq<Option<Entry<K, V>>>

  /** Steps from slot a forward to slot b around a table of c slots. */
  function Dist(c: nat, a: nat, b: nat): (d: nat)
    requires a < c && b < c
    ensures d < c
  {
    if a <= b then b - a else b + c - a
  }

  /** The slot where the probe for key k starts. */
  function Home<K>(hash: K -> nat, c: nat, k: K): (h: nat)
    requires c > 0
    ensures h < c
  {
    hash(k) % c
  }

  lemma HomeIs<K>(hash: K -> nat, c: nat, k: K)
    requires c > 0
    ensures Home(hash, c, k) == hash(k) % c
  {
  }

  lemma NextSlot(c: nat, i: nat)
    requires i < c
    ensures (i + 1) % c == (if i + 1 == c then 0 else i + 1)
  {
  }

  ghost predicate UniqueKeys<K, V>(s: Slots<K, V>) {
    forall i, j :: 0 <= i < j < |s| && s[i].Some? && s[j].Some? ==> s[i].value.key != s[j].value.key
  }

  /** Slot q lies on the probe path of the entry in slot p, before p. */
  ghost predicate OnPath<K, V>(s: Slots<K, V>, hash: K -> nat, q: int, p: int)
    requires 0 <= p < |s| && s[p].Some? && 0 <= q < |s|
  {
    var h := Home(hash, |s|, s[p].value.key);
    Dist(|s|, h, q) < Dist(|s|, h, p)
  }

  /** No hole between an entry's home and its slot, cyclically. */
  ghost predicate NoHoles<K, V>(s: Slots<K, V>, hash: K -> nat) {
    forall p, q :: 0 <= p < |s| && 0 <= q < |s| && s[p].Some? && OnPath(s, hash, q, p) ==> s[q].Some?
  }

  ghost predicate WellFormed<K, V>(s: Slots<K, V>, hash: K -> nat) {
    UniqueKeys(s) && NoHoles(s, hash)
  }

  // ------------------------------------------------------- contents as a map

  /** The bindings of the table. */
  ghost function AsMap<K, V>(s: Slots<K, V>): map<K, V> {
    if s == [] then map[] else
      var m := AsMap(s[..|s| - 1]);
      var e := s[|s| - 1];
      if e.Some? then m[e.value.key := e.value.value] else m
  }

  ghost predicate At<K, V>(s: Slots<K, V>, i: int, k: K) {
    0 <= i < |s| && s[i].Some? && s[i].value.key == k
  }

  /** A table whose keys are distinct binds exactly the keys in its slots, to their values. */
  lemma {:induction false} AsMapFacts<K, V>(s: Slots<K, V>)
    requires UniqueKeys(s)
    ensures forall k :: k in AsMap(s) <==> exists i :: At(s, i, k)
    ensures forall i :: 0 <= i < |s| && s[i].Some? ==>
      s[i].value.key in AsMap(s) && AsMap(s)[s[i].value.key] == s[i].value.value
  {
    if s != [] {
      var t := s[..|s| - 1];
      AsMapFacts(t);
      forall k ensures k in AsMap(s) <==> exists i :: At(s, i, k) {
        if i :| At(s, i, k) { assert i < |t| ==> At(t, i, k); }
        if i :| At(t, i, k) { assert At(s, i, k); }
        if s[|s| - 1].Some? { assert At(s, |s| - 1, s[|s| - 1].value.key); }
      }
      forall i | 0 <= i < |t| && t[i].Some?
        ensures AsMap(s)[s[i].value.key] == s[i].value.value
      {
        assert At(t, i, t[i].value.key);
      }
    }
  }

  /** A map that has exactly the table's keys and values is its contents. */
  lemma AsMapIs<K, V>(s: Slots<K, V>, m: map<K, V>)
    requires UniqueKeys(s)
    requires forall i :: 0 <= i < |s| && s[i].Some? ==> s[i].value.key in m && m[s[i].value.key] == s[i].value.value
    requires forall k :: k in m ==> exists i :: At(s, i, k)
    ensures AsMap(s) == m
  {
    AsMapFacts(s);
    var a := AsMap(s);
    forall k | k in m ensures k in a && a[k] == m[k] {
      var i :| At(s, i, k);
    }
    forall k | k in a ensures k in m {
      var i :| At(s, i, k);
    }
    assert a == m;
  }

  lemma {:induction false} SizeBound<K, V>(s: Slots<K, V>)
    ensures |AsMap(s)| <= |s|
  {
    if s != [] { SizeBound(s[..|s| - 1]); }
  }

  /** A table of free slots is well formed and holds nothing. */
  lemma BlankTable<K, V>(s: Slots<K, V>, hash: K -> nat)
    requires forall i :: 0 <= i < |s| ==> s[i].None?
    ensures WellFormed(s, hash) && AsMap(s) == map[]
  {
    AsMapIs(s, map[]);
  }

  lemma PrefixStep<K, V>(s: Slots<K, V>, i: nat)
    requires i < |s|
    ensures AsMap(s[..i + 1]) ==
      if s[i].Some? then AsMap(s[..i])[s[i].value.key := s[i].value.value] else AsMap(s[..i])
  {
    assert s[..i + 1][..i] == s[..i];
  }

  /** An entry's key is not among the entries before it. */
  lemma PrefixMap<K, V>(s: Slots<K, V>, i: nat)
    requires UniqueKeys(s) && i < |s| && s[i].Some?
    ensures UniqueKeys(s[..i]) && s[i].value.key !in AsMap(s[..i]) && |AsMap(s[..i])| <= i
  {
    AsMapFacts(s[..i]);
    SizeBound(s[..i]);
    var k := s[i].value.key;
    forall j | At(s[..i], j, k) ensures false { }
  }

  /** A table with every slot taken holds as many keys as it has slots. */
  lemma {:induction false} FullSize<K, V>(s: Slots<K, V>)
    requires UniqueKeys(s) && forall i :: 0 <= i < |s| ==> s[i].Some?
    ensures |AsMap(s)| == |s|
  {
    if s != [] {
      var t := s[..|s| - 1];
      FullSize(t);
      AsMapFacts(t);
      var k := s[|s| - 1].value.key;
      forall i | At(t, i, k) ensures false { }
    }
  }

  /** A table holding fewer keys than slots has a free slot. */
  lemma HasFreeSlot<K, V>(s: Slots<K, V>) returns (z: nat)
    requires UniqueKeys(s) && |AsMap(s)| < |s|
    ensures z < |s| && s[z].None?
  {
    if forall i :: 0 <= i < |s| ==> s[i].Some? { FullSize(s); }
    z :| z < |s| && s[z].None?;
  }

  lemma AbsentKey<K, V>(s: Slots<K, V>, k: K)
    requires UniqueKeys(s)
    ensures k in AsMap(s) <==> exists i :: At(s, i, k)
    ensures k !in AsMap(s) ==> forall i :: 0 <= i < |s| && s[i].Some? ==> s[i].value.key != k
  {
    AsMapFacts(s);
  }

  lemma FoundAt<K, V>(s: Slots<K, V>, i: nat)
    requires UniqueKeys(s) && i < |s| && s[i].Some?
    ensures s[i].value.key in AsMap(s) && AsMap(s)[s[i].value.key] == s[i].value.value
  {
    AsMapFacts(s);
  }

  // ---------------------------------------------------------------- searching

  /** The probe for k has passed every slot before slot i without meeting k or a hole. */
  ghost predicate Passed<K, V>(s: Slots<K, V>, start: nat, i: nat, k: K)
    requires start < |s| && i < |s|
  {
    forall q :: 0 <= q < |s| && Dist(|s|, start, q) < Dist(|s|, start, i) ==>
      s[q].Some? && s[q].value.key != k
  }

  lemma PassOn<K, V>(s: Slots<K, V>, start: nat, i: nat, k: K)
    requires start < |s| && i < |s| && Passed(s, start, i, k) && s[i].Some? && s[i].value.key != k
    ensures var j := (i + 1) % |s|;
      && 0 <= j < |s|
      && (j == start <==> Dist(|s|, start, i) + 1 == |s|)
      && if j == start then forall q :: 0 <= q < |s| && s[q].Some? ==> s[q].value.key != k
         else Passed(s, start, j, k) && Dist(|s|, start, j) == Dist(|s|, start, i) + 1
  {
    NextSlot(|s|, i);
  }

  lemma PassStart<K, V>(s: Slots<K, V>, start: nat, k: K)
    requires start < |s|
    ensures Passed(s, start, start, k) && Dist(|s|, start, start) == 0
  {
  }

  /** A probe that ends in a free slot proves the key absent. */
  lemma MissAtFree<K, V>(s: Slots<K, V>, hash: K -> nat, i: nat, k: K)
    requires |s| > 0 && i < |s| && WellFormed(s, hash) && s[i].None?
    requires Passed(s, Home(hash, |s|, k), i, k)
    ensures k !in AsMap(s)
  {
    hide Home;
    AsMapFacts(s);
    forall p | At(s, p, k) ensures false {
      var onPath := OnPath(s, hash, i, p);
    }
  }

  /** Writing an absent key into the free slot its probe ends in adds just that binding. */
  lemma PlaceFree<K, V>(s: Slots<K, V>, hash: K -> nat, i: nat, k: K, v: V)
    requires |s| > 0 && i < |s| && WellFormed(s, hash) && s[i].None?
    requires Passed(s, Home(hash, |s|, k), i, k)
    ensures var t := s[i := Some(Entry(k, v))];
      WellFormed(t, hash) && k !in AsMap(s) && AsMap(t) == AsMap(s)[k := v]
  {
    hide Home;
    var t := s[i := Some(Entry(k, v))];
    MissAtFree(s, hash, i, k);
    AsMapFacts(s);
    forall j | 0 <= j < |s| && s[j].Some? ensures s[j].value.key != k { assert At(s, j, s[j].value.key); }
    assert UniqueKeys(t);
    forall p, q | 0 <= p < |t| && 0 <= q < |t| && t[p].Some? && OnPath(t, hash, q, p) ensures t[q].Some? {
      if p != i { assert OnPath(s, hash, q, p); }
    }
    var m := AsMap(s)[k := v];
    forall x | x in m ensures exists j :: At(t, j, x) {
      if x == k { assert At(t, i, x); } else { var j :| At(s, j, x); assert At(t, j, x); }
    }
    AsMapIs(t, m);
  }

  // ----------------------------------------------------- backward-shift deletion

  /** The table with one hole in the middle of a deletion: every probe path is filled,
      except that entries more than `scanned` slots after the hole may have it on theirs. */
  ghost predicate HoleInv<K, V>(s: Slots<K, V>, hash: K -> nat, hole: nat, scanned: nat) {
    && UniqueKeys(s) && hole < |s| && s[hole].None?
    && forall p, q :: 0 <= p < |s| && 0 <= q < |s| && s[p].Some? && OnPath(s, hash, q, p) ==>
         s[q].Some? || (q == hole && Dist(|s|, hole, p) > scanned)
  }

  /** Clearing the slot of a key opens the hole and drops just that binding. */
  lemma OpenHole<K, V>(s: Slots<K, V>, hash: K -> nat, i: nat)
    requires WellFormed(s, hash) && i < |s| && s[i].Some?
    ensures HoleInv(s[i := None], hash, i, 0)
    ensures AsMap(s[i := None]) == AsMap(s) - {s[i].value.key}
  {
    hide Home;
    var t, k := s[i := None], s[i].value.key;
    forall p, q | 0 <= p < |t| && 0 <= q < |t| && t[p].Some? && OnPath(t, hash, q, p)
      ensures t[q].Some? || (q == i && Dist(|t|, i, p) > 0)
    {
      assert OnPath(s, hash, q, p);
    }
    AsMapFacts(s);
    var m := AsMap(s) - {k};
    forall x | x in m ensures exists j :: At(t, j, x) {
      var j :| At(s, j, x);
      assert At(t, j, x);
    }
    AsMapIs(t, m);
  }

  /** The interval test of deletion: the home is cyclically in (hole, current]. */
  predicate InInterval(hole: nat, home: nat, current: nat) {
    if hole <= current then hole < home && home <= current else hole < home || home <= current
  }

  /** The test says exactly whether the hole is off the probe path of the entry at `current`. */
  lemma IntervalTest(c: nat, hole: nat, home: nat, current: nat)
    requires hole < c && home < c && current < c && hole != current
    ensures InInterval(hole, home, current) <==> !(Dist(c, home, hole) < Dist(c, home, current))
  {
  }

  /** An entry whose path misses the hole stays: one more slot is scanned. */
  lemma ScanOn<K, V>(s: Slots<K, V>, hash: K -> nat, hole: nat, scanned: nat, current: nat)
    requires HoleInv(s, hash, hole, scanned) && current < |s| && s[current].Some?
    requires Dist(|s|, hole, current) == scanned + 1
    requires InInterval(hole, Home(hash, |s|, s[current].value.key), current)
    ensures HoleInv(s, hash, hole, scanned + 1)
  {
    hide Home;
    IntervalTest(|s|, hole, Home(hash, |s|, s[current].value.key), current);
    assert !OnPath(s, hash, hole, current);
    assert forall p :: 0 <= p < |s| && Dist(|s|, hole, p) == scanned + 1 ==> p == current;
  }

  /** A free slot after the scanned ones, or the hole itself again, ends the deletion. */
  lemma ScanEnds<K, V>(s: Slots<K, V>, hash: K -> nat, hole: nat, scanned: nat, current: nat)
    requires HoleInv(s, hash, hole, scanned) && current < |s| && s[current].None?
    requires Dist(|s|, hole, current) == (if scanned + 1 == |s| then 0 else scanned + 1)
    ensures WellFormed(s, hash)
  {
    hide Home;
    forall p, q | 0 <= p < |s| && 0 <= q < |s| && s[p].Some? && OnPath(s, hash, q, p) ensures s[q].Some? {
      if q == hole {
        var onPath := OnPath(s, hash, current, p);
      }
    }
  }

  /** Moving the entry at `current` into the hole keeps the contents, leaves a hole
      behind, and brings the entry nearer its home. */
  lemma MoveBack<K, V>(s: Slots<K, V>, hash: K -> nat, hole: nat, scanned: nat, current: nat)
    requires HoleInv(s, hash, hole, scanned) && current < |s| && s[current].Some?
    requires !InInterval(hole, Home(hash, |s|, s[current].value.key), current)
    ensures var t := s[hole := s[current]][current := None];
      && HoleInv(t, hash, current, 0) && AsMap(t) == AsMap(s)
      && Displacement(t, hash) < Displacement(s, hash)
  {
    hide Home;
    var t, c := s[hole := s[current]][current := None], |s|;
    var h := Home(hash, c, s[current].value.key);
    IntervalTest(c, hole, h, current);
    MoveHole(s, hash, hole, scanned, current);
    AsMapFacts(s);
    forall x | x in AsMap(s) ensures exists j :: At(t, j, x) {
      var j :| At(s, j, x);
      assert At(t, if j == current then hole else j, x);
    }
    AsMapIs(t, AsMap(s));
    DisplacementUpdate(s, hash, c, hole, s[current]);
    DisplacementUpdate(s[hole := s[current]], hash, c, current, None);
  }

  lemma MoveHole<K, V>(s: Slots<K, V>, hash: K -> nat, hole: nat, scanned: nat, current: nat)
    requires HoleInv(s, hash, hole, scanned) && current < |s| && s[current].Some?
    requires var h := Home(hash, |s|, s[current].value.key); Dist(|s|, h, hole) < Dist(|s|, h, current)
    ensures HoleInv(s[hole := s[current]][current := None], hash, current, 0)
  {
    hide Home;
    var t := s[hole := s[current]][current := None];
    forall p, q | 0 <= p < |t| && 0 <= q < |t| && t[p].Some? && OnPath(t, hash, q, p)
      ensures t[q].Some? || (q == current && Dist(|t|, current, p) > 0)
    {
      assert OnPath(s, hash, q, if p == hole then current else p);
    }
  }

  /** How far the entry in slot i is from its home; nothing for a free slot. */
  ghost function Displaced<K, V>(c: nat, hash: K -> nat, i: nat, e: Option<Entry<K, V>>): nat
    requires i < c
  {
    if e.Some? then Dist(c, Home(hash, c, e.value.key), i) else 0
  }

  ghost function DisplacedUpTo<K, V>(s: Slots<K, V>, hash: K -> nat, n: nat): nat
    requires n <= |s|
  {
    if n == 0 then 0 else DisplacedUpTo(s, hash, n - 1) + Displaced(|s|, hash, n - 1, s[n - 1])
  }

  /** The sum over the table of the distances of the entries from their homes. */
  ghost function Displacement<K, V>(s: Slots<K, V>, hash: K -> nat): nat {
    DisplacedUpTo(s, hash, |s|)
  }

  lemma {:induction false} DisplacementUpdate<K, V>(s: Slots<K, V>, hash: K -> nat, n: nat, i: nat, e: Option<Entry<K, V>>)
    requires n <= |s| && i < |s|
    ensures DisplacedUpTo(s[i := e], hash, n) == DisplacedUpTo(s, hash, n)
      + if i < n then Displaced(|s|, hash, i, e) - Displaced(|s|, hash, i, s[i]) else 0
  {
    if n > 0 { DisplacementUpdate(s, hash, n - 1, i, e); }
  }

  // ---------------------------------------------------------------- iteration

  /** The entries in slot order: what a walk over the table visits. */
  function Listed<K, V>(s: Slots<K, V>): (es: seq<Entry<K, V>>) {
    if s == [] then [] else
      Listed(s[..|s| - 1]) + (if s[|s| - 1].Some? then [s[|s| - 1].value] else [])
  }

  /** The bindings that inserting the entries one after the other, if absent, builds up. */
  ghost function InsertAll<K, V>(es: seq<Entry<K, V>>): map<K, V> {
    if es == [] then map[] else
      var m := InsertAll(es[..|es| - 1]);
      var e := es[|es| - 1];
      if e.key in m then m else m[e.key := e.value]
  }

  lemma InsertAllSnoc<K, V>(es: seq<Entry<K, V>>, e: Entry<K, V>)
    ensures InsertAll(es + [e]) ==
      if e.key in InsertAll(es) then InsertAll(es) else InsertAll(es)[e.key := e.value]
  {
    assert (es + [e])[..|es|] == es;
  }

  ghost predicate DistinctKeys<K, V>(es: seq<Entry<K, V>>) {
    forall i, j :: 0 <= i < j < |es| ==> es[i].key != es[j].key
  }

  /** Entries with distinct keys are all kept, each with its value. */
  lemma {:induction false} InsertAllDistinct<K, V>(es: seq<Entry<K, V>>)
    requires DistinctKeys(es)
    ensures forall i :: 0 <= i < |es| ==> es[i].key in InsertAll(es) && InsertAll(es)[es[i].key] == es[i].value
    ensures forall k :: k in InsertAll(es) ==> exists i :: 0 <= i < |es| && es[i].key == k
  {
    if es != [] {
      var t := es[..|es| - 1];
      InsertAllDistinct(t);
      forall k | k in InsertAll(es) ensures exists i :: 0 <= i < |es| && es[i].key == k {
        if k in InsertAll(t) {
          var i :| 0 <= i < |t| && t[i].key == k;
          assert es[i].key == k;
        }
      }
      var last := es[|es| - 1].key;
      forall i | 0 <= i < |t| ensures t[i].key != last { assert es[i] == t[i]; }
    }
  }

  /** Inserting what a walk lists rebuilds the table's contents. */
  lemma {:induction false} ListedRebuilds<K, V>(s: Slots<K, V>)
    requires UniqueKeys(s)
    ensures InsertAll(Listed(s)) == AsMap(s) && |Listed(s)| == |AsMap(s)|
  {
    if s != [] {
      var t := s[..|s| - 1];
      ListedRebuilds(t);
      if s[|s| - 1].Some? {
        PrefixMap(s, |s| - 1);
        InsertAllSnoc(Listed(t), s[|s| - 1].value);
      } else {
        assert Listed(s) == Listed(t);
      }
    }
  }

  /** A walk visits each key of the table exactly once, with its value. */
  lemma {:induction false} ListedOnce<K, V>(s: Slots<K, V>)
    requires UniqueKeys(s)
    ensures DistinctKeys(Listed(s))
    ensures forall i :: 0 <= i < |Listed(s)| ==>
      Listed(s)[i].key in AsMap(s) && AsMap(s)[Listed(s)[i].key] == Listed(s)[i].value
    ensures forall k :: k in AsMap(s) ==> exists i :: 0 <= i < |Listed(s)| && Listed(s)[i].key == k
  {
    if s != [] {
      var t := s[..|s| - 1];
      ListedOnce(t);
      forall k | k in AsMap(s) ensures exists i :: 0 <= i < |Listed(s)| && Listed(s)[i].key == k {
        if k in AsMap(t) && !(s[|s| - 1].Some? && s[|s| - 1].value.key == k) {
          var i :| 0 <= i < |Listed(t)| && Listed(t)[i].key == k;
          assert Listed(s)[i].key == k;
        } else {
          assert Listed(s)[|Listed(s)| - 1].key == k;
        }
      }
      if s[|s| - 1].Some? { PrefixMap(s, |s| - 1); }
    }
  }

  /** A walk over the table is a walk over its first slots and then over the rest. */
  lemma {:induction false} ListedSplit<K, V>(s: Slots<K, V>, i: nat)
    requires i <= |s|
    ensures Listed(s) == Listed(s[..i]) + Listed(s[i..])
  {
    if i < |s| {
      var t := s[..|s| - 1];
      ListedSplit(t, i);
      assert t[..i] == s[..i] && t[i..] == s[i..][..|s| - 1 - i];
    } else {
      assert s[..i] == s && s[i..] == [];
    }
  }

  lemma ListedStep<K, V>(s: Slots<K, V>, i: nat)
    requires i < |s|
    ensures Listed(s[i..]) == (if s[i].Some? then [s[i].value] else []) + Listed(s[i + 1..])
    ensures Listed(s[..i + 1]) == Listed(s[..i]) + (if s[i].Some? then [s[i].value] else [])
  {
    ListedSplit(s[i..], 1);
    assert s[i..][1..] == s[i + 1..] && s[i..][..1] == [s[i]];
    assert [s[i]][..0] == [];
    assert s[..i + 1][..i] == s[..i];
  }

  /** A walk visits an entry after those of the slots before it, and no others. */
  lemma ListedAt<K, V>(s: Slots<K, V>, i: nat)
    requires i < |s| && s[i].Some?
    ensures var k := |Listed(s[..i])|; k < |Listed(s)| && Listed(s)[k] == s[i].value && Listed(s)[..k] == Listed(s[..i])
  {
    hide Listed;
    ListedSplit(s, i);
    ListedStep(s, i);
  }
}
