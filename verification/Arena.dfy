/** The bump allocator: addresses are naturals, and a region is where malloc put it. */
module Arenas {
  import Bits

  /** One region: its base address, its size, and how far it has been handed out. */
  datatype Block = Block(region: nat, size: nat, index: nat)

  datatype Range = Range(start: nat, size: nat)

  ghost predicate Disjoint(a: Range, b: Range) {
    a.start + a.size <= b.start || b.start + b.size <= a.start
  }

  ghost predicate Inside(r: Range, b: Block) {
    b.region <= r.start && r.start + r.size <= b.region + b.size
  }

  ghost function RegionOf(b: Block): Range {
    Range(b.region, b.size)
  }

  /** The range lies in one of the blocks, below the index if that is the current one. */
  ghost predicate PlacedIn(blocks: seq<Block>, r: Range, k: int) {
    && 0 <= k < |blocks| && Inside(r, blocks[k])
    && (k == |blocks| - 1 ==> r.start + r.size <= blocks[k].region + blocks[k].index)
  }

  ghost predicate Placed(blocks: seq<Block>, r: Range) {
    exists k :: PlacedIn(blocks, r, k)
  }

  ghost predicate ApartRegions(blocks: seq<Block>) {
    forall i, j :: 0 <= i < j < |blocks| ==> Disjoint(RegionOf(blocks[i]), RegionOf(blocks[j]))
  }

  /** Moving the current index forward keeps every range placed. */
  lemma Advance(blocks: seq<Block>, b: Block, r: Range)
    requires |blocks| > 0 && Placed(blocks, r)
    requires var c := blocks[|blocks| - 1]; b.region == c.region && b.size == c.size && c.index <= b.index
    ensures Placed(blocks[|blocks| - 1 := b], r)
  {
    var k :| PlacedIn(blocks, r, k);
    assert PlacedIn(blocks[|blocks| - 1 := b], r, k);
  }

  /** So does opening a new region. */
  lemma Open(blocks: seq<Block>, b: Block, r: Range)
    requires Placed(blocks, r)
    ensures Placed(blocks + [b], r)
  {
    var k :| PlacedIn(blocks, r, k);
    assert PlacedIn(blocks + [b], r, k);
  }

  /** What is left of the current region overlaps nothing given out before. */
  lemma FreshRange(blocks: seq<Block>, r: Range, n: Range)
    requires |blocks| > 0 && ApartRegions(blocks) && Placed(blocks, r)
    requires var c := blocks[|blocks| - 1]; Inside(n, c) && c.region + c.index <= n.start
    ensures Disjoint(r, n)
  {
    var k :| PlacedIn(blocks, r, k);
    if k < |blocks| - 1 { assert Disjoint(RegionOf(blocks[k]), RegionOf(blocks[|blocks| - 1])); }
  }

  class Arena {
    var blocks: seq<Block>
    ghost var given: seq<Range>

    /** The last block is the current one; no two ranges given out overlap. */
    ghost predicate Valid()
      reads this
    {
      && |blocks| > 0 && ApartRegions(blocks)
      && (forall i :: 0 <= i < |given| ==> Placed(blocks, given[i]))
      && (forall i, j :: 0 <= i < j < |given| ==> Disjoint(given[i], given[j]))
    }

    constructor (size: nat, region: nat)
      ensures Valid() && blocks == [Block(region, size, 0)] && given == []
    {
      blocks, given := [Block(region, size, 0)], [];
    }

    /** Aligns the current index and gives out `size` bytes, opening a new region when they
        do not fit. `region` is where malloc would put a new one, apart from the regions in
        use. A range larger than a region is given out all the same, and passes its end; the
        first range of a new region is only as aligned as the region. */
    method AllocAligned(size: nat, alignment: nat, region: nat) returns (address: nat)
      requires Valid() && alignment > 0
      requires forall i :: 0 <= i < |blocks| ==>
        Disjoint(RegionOf(blocks[i]), Range(region, blocks[|blocks| - 1].size))
      modifies this
      ensures Valid() && |old(blocks)| <= |blocks| <= |old(blocks)| + 1
      ensures |blocks| > |old(blocks)| ==> address == region
      ensures address % alignment == 0 <==> |blocks| == |old(blocks)| || region % alignment == 0
      ensures Inside(Range(address, size), blocks[|blocks| - 1]) <==> size <= old(blocks)[|old(blocks)| - 1].size
      ensures given == old(given) + if size <= old(blocks)[|old(blocks)| - 1].size then [Range(address, size)] else []
    {
      hide Placed, ApartRegions;
      var block := blocks[|blocks| - 1];
      var offset := (block.region + block.index) % alignment;
      if offset > 0 {
        AlignUp(block.region + block.index, alignment);
        block := block.(index := block.index - offset + alignment);
        MoveIndex(block);
      }
      if size + (block.index + offset) > block.size {
        block := Block(region, block.size, 0);
        OpenRegion(block);
      }
      address := block.region + block.index;
      Give(size);
    }

    /** Stores the current block back with a later index. */
    method MoveIndex(b: Block)
      requires Valid()
      requires var c := blocks[|blocks| - 1]; b.region == c.region && b.size == c.size && c.index <= b.index
      modifies this`blocks
      ensures Valid() && blocks == old(blocks)[|old(blocks)| - 1 := b]
    {
      hide Placed;
      forall i | 0 <= i < |given| ensures Placed(blocks[|blocks| - 1 := b], given[i]) { Advance(blocks, b, given[i]); }
      blocks := blocks[|blocks| - 1 := b];
    }

    /** Makes a new region the current one. */
    method OpenRegion(b: Block)
      requires Valid() && forall i :: 0 <= i < |blocks| ==> Disjoint(RegionOf(blocks[i]), RegionOf(b))
      modifies this`blocks
      ensures Valid() && blocks == old(blocks) + [b]
    {
      hide Placed;
      forall i | 0 <= i < |given| ensures Placed(blocks + [b], given[i]) { Open(blocks, b, given[i]); }
      blocks := blocks + [b];
    }

    /** Hands out the next `size` bytes of the current region. */
    method Give(size: nat)
      requires Valid()
      modifies this
      ensures var c := old(blocks)[|old(blocks)| - 1];
        && Valid() && blocks == old(blocks)[|old(blocks)| - 1 := c.(index := c.index + size)]
        && given == old(given) + if c.index + size <= c.size then [Range(c.region + c.index, size)] else []
    {
      hide Placed, ApartRegions;
      var c := blocks[|blocks| - 1];
      ghost var n := Range(c.region + c.index, size);
      ghost var fits := c.index + size <= c.size;
      if fits {
        forall i | 0 <= i < |given| ensures Disjoint(given[i], n) { FreshRange(blocks, given[i], n); }
      }
      MoveIndex(c.(index := c.index + size));
      if fits {
        PlacedLast(blocks, n);
        given := given + [n];
      }
    }
  }

  lemma PlacedLast(blocks: seq<Block>, n: Range)
    requires |blocks| > 0 && PlacedIn(blocks, n, |blocks| - 1)
    ensures Placed(blocks, n)
  {
  }

  /** Rounding up to a multiple of the alignment. */
  lemma AlignUp(address: nat, alignment: nat)
    requires alignment > 0
    ensures (address - address % alignment + alignment) % alignment == 0
  {
    var q := address / alignment + 1;
    assert address - address % alignment + alignment == q * alignment;
    Bits.DivModUnique(q * alignment, alignment, q, 0);
  }
}
