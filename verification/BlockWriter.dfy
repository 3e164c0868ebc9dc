/** Writing a stream of key-value pairs through one block buffer. */
module BlockWriters {
  import opened Bytes
  import opened Bits
  import opened BlockFiles

  /** How full the block is when p > 0 bytes of the stream have been produced: the block is
      flushed only when a pair does not fit, so it may be full but is never empty. */
  function Filled(p: nat, capacity: nat): nat
    requires p > 0 && capacity > 0
  {
    (p - 1) % capacity + 1
  }

  predicate Aligned(p: nat, capacity: nat)
    requires capacity > 0
  {
    p % capacity == 0
  }

  lemma AlignedNext(p: nat, capacity: nat)
    requires capacity > 0 && Aligned(p, capacity)
    ensures Aligned(p + capacity, capacity)
  {
    DivModUnique(p + capacity, capacity, p / capacity + 1, 0);
  }

  /** The rest of a file from position p; nothing if it ends before. */
  function From(content: seq<Byte>, p: nat): seq<Byte> {
    if p <= |content| then content[p..] else []
  }

  class BlockWriter {
    const file: BlockFile
    const block: array<Byte>
    var blockSize: nat
    var size: nat
    ghost const original: seq<Byte>

    /** Whole blocks are on file; what follows them there is what the file held before. */
    ghost predicate FileOk()
      reads file
    {
      && block.Length > 0 && file.pos <= |file.content| && Aligned(file.pos, block.Length)
      && file.content[file.pos..] == From(original, file.pos)
    }

    ghost predicate Valid()
      reads this, file
    {
      FileOk() && 0 < blockSize <= block.Length && size == file.pos + blockSize
    }

    /** The blocks written so far. */
    ghost function Written(): (s: seq<Byte>)
      requires FileOk()
      reads file
      ensures |s| == file.pos
    {
      file.content[..file.pos]
    }

    /** The stream so far: the blocks written and the filled part of the buffer. */
    ghost function Output(): (s: seq<Byte>)
      requires Valid()
      reads this, file, block
      ensures |s| == size
    {
      Written() + block[..blockSize]
    }

    lemma SizeFilled()
      requires Valid()
      ensures blockSize == Filled(size, block.Length)
    {
      var c := block.Length;
      DivModUnique(size - 1, c, file.pos / c, blockSize - 1);
    }

    /** Takes over a block whose first `blockSize` bytes are already produced. */
    constructor (file: BlockFile, block: array<Byte>, blockSize: nat)
      requires 0 < blockSize <= block.Length && file.pos == 0
      ensures Valid() && this.file == file && this.block == block && Output() == block[..blockSize]
      ensures this.blockSize == blockSize && original == file.content
    {
      this.file, this.block, this.blockSize, this.size := file, block, blockSize, blockSize;
      this.original := file.content;
      new;
      assert file.content[..0] == [];
    }

    /** Copies the first kvSize bytes of `data` out: into the block if they fit in it, else
        across the block boundary, writing every block that fills up with more to come. */
    method Dump(data: array<Byte>, kvSize: nat)
      requires Valid() && data != block && 0 < kvSize <= data.Length
      modifies this, file, block
      ensures Valid() && Output() == old(Output()) + data[..kvSize]
    {
      hide Aligned, From;
      var capacity := block.Length;
      var blockCount := (blockSize + kvSize + capacity - 1) / capacity;
      FitsIff(blockSize, kvSize, capacity);
      if blockCount != 1 {
        DumpAcross(data[..kvSize]);
      } else {
        var next := Append(block, blockSize, data[..kvSize]);
        blockSize := next;
      }
      size := size + kvSize;
    }

    lemma FitsIff(filled: nat, n: nat, capacity: nat)
      requires 0 < filled <= capacity && n > 0
      ensures (filled + n + capacity - 1) / capacity == 1 <==> filled + n <= capacity
    {
      var q := (filled + n + capacity - 1) / capacity;
      if filled + n <= capacity {
        DivModUnique(filled + n + capacity - 1, capacity, 1, filled + n - 1);
      } else if filled + n <= 2 * capacity {
        DivModUnique(filled + n + capacity - 1, capacity, 2, filled + n - capacity - 1);
      } else if q <= 1 {
        assert q * capacity <= capacity;
      }
    }

    method DumpAcross(x: seq<Byte>)
      requires Valid() && blockSize + |x| > block.Length
      modifies this`blockSize, file, block
      ensures FileOk() && 0 < blockSize <= block.Length
      ensures file.pos + blockSize == old(size) + |x|
      ensures Written() + block[..blockSize] == old(Output()) + x
    {
      hide Aligned, From;
      ghost var before := Output();
      var complete := block.Length - blockSize;
      FillAndWrite(blockSize, x[..complete], before[..file.pos]);
      assert Written() == before + x[..complete];
      var remaining := WriteBlocks(x, |x| - complete);
      ThreeParts(before, x, complete, |x| - remaining);
      blockSize := remaining;
      var next := Append(block, 0, x[|x| - remaining..]);
    }

    lemma ThreeParts(before: seq<Byte>, x: seq<Byte>, a: nat, b: nat)
      requires a <= b <= |x|
      ensures before + x[..a] + x[a..b] + x[b..] == before + x
    {
      assert x == x[..a] + x[a..b] + x[b..];
    }

    /** Writes whole blocks of the end of x while more than a block is left. */
    method WriteBlocks(x: seq<Byte>, left: nat) returns (remaining: nat)
      requires FileOk() && 0 < left <= |x|
      modifies file, block
      ensures FileOk() && 0 < remaining <= left && remaining <= block.Length
      ensures Written() == old(Written()) + x[|x| - left..|x| - remaining]
    {
      hide Aligned, From;
      ghost var before, start := Written(), |x| - left;
      var capacity := block.Length;
      remaining := left;
      while remaining > capacity
        invariant 0 < remaining <= left && FileOk()
        invariant Written() == before + x[start..|x| - remaining]
      {
        var done := |x| - remaining;
        FillAndWrite(0, x[done..done + capacity], Written());
        assert x[start..done] + x[done..done + capacity] == x[start..done + capacity];
        remaining := remaining - capacity;
      }
    }

    /** Completes the block from position `filled` and writes it out. */
    method FillAndWrite(filled: nat, part: seq<Byte>, ghost written: seq<Byte>)
      requires FileOk() && filled + |part| == block.Length && written == Written()
      modifies file, block
      ensures FileOk() && Written() == written + old(block[..filled]) + part
      ensures file.pos == old(file.pos) + block.Length
    {
      var next := Append(block, filled, part);
      assert block[..] == block[..next];
      AlignedNext(file.pos, block.Length);
      file.WriteBlock(block);
    }
  }
}
